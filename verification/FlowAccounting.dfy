/** Per-flow feature accounting in the packet hook: running sums over the packets of a
    flow, in the kernel's fixed-width arithmetic. */
module FlowAccounting {

  const U16_MAX: int := 0xFFFF
  const U32: int := 0x1_0000_0000
  const U64: int := 0x1_0000_0000_0000_0000

  type u16 = x: int | 0 <= x < 0x1_0000
  type u32 = x: int | 0 <= x < 0x1_0000_0000
  type u64 = x: int | 0 <= x < 0x1_0000_0000_0000_0000

  /** Reduction to a machine word: `x` modulo `m`, as repeated subtraction. */
  function Wrap(x: nat, m: nat): (r: nat)
    requires m > 0
    ensures r < m
  {
    if x < m then x else Wrap(x - m, m)
  }

  /** ... which is the remainder. */
  lemma {:induction false} WrapIsRemainder(x: nat, m: nat) returns (q: nat)
    requires m > 0
    ensures x == q * m + Wrap(x, m)
  {
    if x < m {
      q := 0;
    } else {
      var q' := WrapIsRemainder(x - m, m);
      q := q' + 1;
    }
  }

  lemma {:induction false} WrapMod(x: nat)
    ensures Wrap(x, U64) == x % 0x1_0000_0000_0000_0000 && Wrap(x, U32) == x % 0x1_0000_0000
  {
    WrapIsMod(x, U64);
    WrapIsMod(x, U32);
  }

  lemma {:induction false} WrapIsMod(x: nat, m: nat)
    requires m > 0
    ensures Wrap(x, m) == x % m
  {
    if x >= m {
      WrapIsMod(x - m, m);
      OneRoundLess(x, m, x / m, x % m);
    }
  }

  lemma {:induction false} OneRoundLess(x: nat, m: nat, q: nat, r: nat)
    requires 0 < m <= x && x == q * m + r && r < m
    ensures (x - m) % m == r
  {
    var y, k := (x - m) % m, q - (x - m) / m;
    assert x - m == (x - m) / m * m + y;
    assert k * m == q * m - (x - m) / m * m;
    assert k * m == m + y - r;
    assert k <= 0 ==> k * m <= 0;
    assert k >= 2 ==> k * m >= 2 * m;
  }

  /** Adding to a reduced sum is adding, then reducing. */
  lemma {:induction false} WrapAdd(a: nat, b: nat, m: nat)
    requires m > 0
    ensures Wrap(Wrap(a, m) + b, m) == Wrap(a + b, m)
  {
    if a >= m {
      WrapAdd(a - m, b, m);
    }
  }

  datatype Proto = Tcp(doff: int) | Udp | Icmp | OtherProto

  datatype Flags = Flags(fin: bool, syn: bool, rst: bool, psh: bool, ack: bool, urg: bool)

  /** What the hook reads from one packet; `now` is the clock reading taken for it. */
  datatype Packet = Packet(original: bool, totLen: u16, skbLen: u32, ihl: int, proto: Proto, flags: Flags, window: u16,
                           iif: nat, oif: nat, now: u64)

  function HeaderLen(p: Packet): int {
    p.ihl * 4 + match p.proto
                case Tcp(doff) => doff * 4
                case Udp => 8
                case Icmp => 8
                case OtherProto => 0
  }

  ghost predicate WellFormed(p: Packet) {
    5 <= p.ihl <= 15 && (p.proto.Tcp? ==> 0 <= p.proto.doff <= 15) && p.now > 0
  }

  /** Payload length, clamped at 0 when the headers claim more than there is. */
  function PayloadLen(p: Packet): nat {
    var l3 := if p.totLen < p.skbLen then p.totLen else p.skbLen;
    if l3 > HeaderLen(p) then l3 - HeaderLen(p) else 0
  }

  lemma {:induction false} PayloadFits(p: Packet)
    requires WellFormed(p)
    ensures 0 <= PayloadLen(p) <= U16_MAX
  {
  }

  /** A packet is made of an IP header of `ihl` words, a transport header (`doff` words for TCP,
      8 bytes for UDP and ICMP, none otherwise) and `n` bytes behind them; what is there is
      `totLen` bytes or the buffer's, if that holds fewer. Headers that claim more leave no byte. */
  ghost predicate HasPayload(p: Packet, n: nat) {
    var there: int := if p.skbLen < p.totLen then p.skbLen else p.totLen;
    match p.proto
    case Tcp(doff) => there == 4 * p.ihl + 4 * doff + n || (n == 0 && there < 4 * p.ihl + 4 * doff)
    case Udp => there == 4 * p.ihl + 8 + n || (n == 0 && there < 4 * p.ihl + 8)
    case Icmp => there == 4 * p.ihl + 8 + n || (n == 0 && there < 4 * p.ihl + 8)
    case OtherProto => there == 4 * p.ihl + n || (n == 0 && there < 4 * p.ihl)
  }

  lemma {:induction false} PayloadByConstruction(p: Packet, n: nat)
    ensures HasPayload(p, n) <==> PayloadLen(p) == n
    ensures p.totLen <= p.skbLen && p.proto.Tcp? && p.totLen == 4 * p.ihl + 4 * p.proto.doff + n ==> PayloadLen(p) == n
    ensures p.totLen <= p.skbLen && (p.proto.Udp? || p.proto.Icmp?) && p.totLen == 4 * p.ihl + 8 + n ==> PayloadLen(p) == n
    ensures p.totLen <= p.skbLen && p.proto.OtherProto? && p.totLen == 4 * p.ihl + n ==> PayloadLen(p) == n
  {
  }

  /** `g` microseconds passed between two readings of a 64-bit nanosecond clock, or `g` is the
      most that is recorded, 2^32 - 1, and at least that many passed. */
  ghost predicate GapIs(before: int, now: int, g: nat) {
    var ns := if before <= now then now - before else now + 0x1_0000_0000_0000_0000 - before;
    1000 * g <= ns && (if g == 0xFFFF_FFFF then true else g < 0xFFFF_FFFF && ns < 1000 * g + 1000)
  }

  lemma {:induction false} GapByClock(before: u64, now: u64)
    ensures forall g {:trigger GapIs(before, now, g)} :: GapIs(before, now, g) <==> g == GapUs(before, now)
  {
    var ns := if before <= now then now - before else now + 0x1_0000_0000_0000_0000 - before;
    assert (now - before) % U64 == ns;
  }

  // ----- the reference: runs of packets and of samples

  /** A history, newest element last. */
  datatype Run<T> = Nil | Snoc(init: Run<T>, last: T)

  ghost function Len<T>(r: Run<T>): nat {
    match r case Nil => 0 case Snoc(init, _) => Len(init) + 1
  }

  ghost function Sum(xs: Run<nat>): nat {
    match xs case Nil => 0 case Snoc(init, x) => Sum(init) + x
  }

  ghost function SumSq(xs: Run<nat>): nat {
    match xs case Nil => 0 case Snoc(init, x) => SumSq(init) + x * x
  }

  /** The least of the samples, or `limit`. */
  ghost function Least(xs: Run<nat>, limit: nat): nat {
    match xs
    case Nil => limit
    case Snoc(init, x) => if x < Least(init, limit) then x else Least(init, limit)
  }

  ghost predicate In<T(!new)>(x: T, xs: Run<T>) {
    match xs case Nil => false case Snoc(init, y) => x == y || In(x, init)
  }

  /** The least of some samples that are all within the limit: one of them, and below all others. */
  lemma {:induction false} LeastIsTheLeast(xs: Run<nat>, limit: nat)
    ensures forall x: nat :: In(x, xs) ==> Least(xs, limit) <= x
    ensures In(Least(xs, limit), xs) || Least(xs, limit) == limit
    ensures Least(xs, limit) <= limit
  {
    if xs.Snoc? { LeastIsTheLeast(xs.init, limit); }
  }

  /** The greatest of some samples, or 0. */
  ghost function Most(xs: Run<nat>): nat {
    match xs case Nil => 0 case Snoc(init, x) => if x > Most(init) then x else Most(init)
  }

  lemma {:induction false} MostIsTheGreatest(xs: Run<nat>)
    ensures forall x: nat :: In(x, xs) ==> x <= Most(xs)
    ensures In(Most(xs), xs) || (xs == Nil && Most(xs) == 0)
  {
    if xs.Snoc? { MostIsTheGreatest(xs.init); }
  }

  ghost function Lens(h: Run<Packet>): Run<nat> {
    match h case Nil => Nil case Snoc(init, p) => Snoc(Lens(init), PayloadLen(p))
  }

  /** The packets of one direction. */
  ghost function Dir(h: Run<Packet>, original: bool): Run<Packet> {
    match h
    case Nil => Nil
    case Snoc(init, p) => if p.original == original then Snoc(Dir(init, original), p) else Dir(init, original)
  }

  /** Gap in whole microseconds between two readings, clamped to 32 bits. */
  function GapUs(before: int, now: int): (g: nat)
    ensures g < U32
  {
    var g := (now - before) % U64 / 1000;
    if g > U32 - 1 then U32 - 1 else g
  }

  /** The gaps between consecutive packets. */
  ghost function Gaps(h: Run<Packet>): Run<nat> {
    match h
    case Nil => Nil
    case Snoc(Nil, _) => Nil
    case Snoc(init, p) => Snoc(Gaps(init), GapUs(init.last.now, p.now))
  }

  ghost function FirstNs(h: Run<Packet>): nat {
    match h case Nil => 0 case Snoc(Nil, p) => p.now case Snoc(init, _) => FirstNs(init)
  }

  ghost function LastNs(h: Run<Packet>): nat {
    match h case Nil => 0 case Snoc(_, p) => p.now
  }

  ghost predicate AllWellFormed(h: Run<Packet>) {
    match h case Nil => true case Snoc(init, p) => AllWellFormed(init) && WellFormed(p)
  }

  datatype Flag = Fin | Syn | Rst | Psh | Ack | Urg

  predicate Carries(p: Packet, f: Flag) {
    p.proto.Tcp? && match f
                    case Fin => p.flags.fin
                    case Syn => p.flags.syn
                    case Rst => p.flags.rst
                    case Psh => p.flags.psh
                    case Ack => p.flags.ack
                    case Urg => p.flags.urg
  }

  ghost function Carrying(h: Run<Packet>, f: Flag): nat {
    match h case Nil => 0 case Snoc(init, p) => Carrying(init, f) + if Carries(p, f) then 1 else 0
  }

  // ----- the accumulator record

  /** One running sum: sum and sum of squares mod 2^64, count mod 2^32. */
  ghost predicate Tallies(xs: Run<nat>, sum: nat, sq: nat, count: nat) {
    sum == Wrap(Sum(xs), U64) && sq == Wrap(SumSq(xs), U64) && count == Wrap(Len(xs), U32)
  }

  lemma {:induction false} Tally(xs: Run<nat>, x: nat, sum: nat, sq: nat, count: nat)
    requires Tallies(xs, sum, sq, count)
    ensures Tallies(Snoc(xs, x), Wrap(sum + x, U64), Wrap(sq + x * x, U64), Wrap(count + 1, U32))
  {
    WrapAdd(Sum(xs), x, U64);
    WrapAdd(SumSq(xs), x * x, U64);
    WrapAdd(Len(xs), 1, U32);
  }

  /** The extension record, field group by field group. */
  datatype Lengths = Lengths(sum: nat, sqSum: nat, count: nat, bytesFwd: nat, bytesBwd: nat, bwdSqSum: nat)
  datatype Times = Times(firstNs: nat, lastNs: nat, iatSumUs: nat, iatSqSum: nat, iatCount: nat, iatMin: nat)
  datatype FwdTimes = FwdTimes(lastSeen: nat, iatSum: nat, iatSqSum: nat, iatCount: nat)
  datatype FlagCounts = FlagCounts(syn: nat, ack: nat, psh: nat, urg: nat)

  ghost predicate LengthsOk(l: Lengths, h: Run<Packet>) {
    && Tallies(Lens(h), l.sum, l.sqSum, l.count)
    && l.bytesFwd == Wrap(Sum(Lens(Dir(h, true))), U64)
    && l.bytesBwd == Wrap(Sum(Lens(Dir(h, false))), U64)
    && l.bwdSqSum == Wrap(SumSq(Lens(Dir(h, false))), U64)
  }

  ghost predicate TimesOk(t: Times, h: Run<Packet>) {
    && Tallies(Gaps(h), t.iatSumUs, t.iatSqSum, t.iatCount)
    && t.iatMin == Least(Gaps(h), U32 - 1)
    && t.firstNs == FirstNs(h) && t.lastNs == LastNs(h)
  }

  ghost predicate FwdTimesOk(t: FwdTimes, h: Run<Packet>) {
    && Tallies(Gaps(Dir(h, true)), t.iatSum, t.iatSqSum, t.iatCount)
    && t.lastSeen == LastNs(Dir(h, true))
  }

  ghost predicate FlagsOk(c: FlagCounts, h: Run<Packet>) {
    && c.syn == Wrap(Carrying(h, Syn), U32) && c.ack == Wrap(Carrying(h, Ack), U32)
    && c.psh == Wrap(Carrying(h, Psh), U32) && c.urg == Wrap(Carrying(h, Urg), U32)
  }

  // ----- one packet, field by field

  ghost predicate LengthsStep(l: Lengths, p: Packet, l': Lengths, n: nat) {
    && l'.sum == (l.sum + n) % 0x1_0000_0000_0000_0000
    && l'.sqSum == (l.sqSum + n * n) % 0x1_0000_0000_0000_0000
    && l'.count == (l.count + 1) % 0x1_0000_0000
    && (if p.original then
          l'.bytesFwd == (l.bytesFwd + n) % 0x1_0000_0000_0000_0000 && l'.bytesBwd == l.bytesBwd && l'.bwdSqSum == l.bwdSqSum
        else
          && l'.bytesFwd == l.bytesFwd && l'.bytesBwd == (l.bytesBwd + n) % 0x1_0000_0000_0000_0000
          && l'.bwdSqSum == (l.bwdSqSum + n * n) % 0x1_0000_0000_0000_0000)
  }

  ghost predicate TimesStep(t: Times, p: Packet, t': Times) {
    && t'.lastNs == p.now
    && if t.firstNs == 0 then t' == t.(firstNs := p.now, lastNs := p.now)
       else
         && t'.firstNs == t.firstNs
         && forall g: nat {:trigger GapIs(t.lastNs, p.now, g)} :: GapIs(t.lastNs, p.now, g) ==>
              && t'.iatSumUs == (t.iatSumUs + g) % 0x1_0000_0000_0000_0000
              && t'.iatSqSum == (t.iatSqSum + g * g) % 0x1_0000_0000_0000_0000
              && t'.iatCount == (t.iatCount + 1) % 0x1_0000_0000
              && t'.iatMin == (if g < t.iatMin then g else t.iatMin)
  }

  ghost predicate FwdTimesStep(t: FwdTimes, p: Packet, t': FwdTimes) {
    if !p.original then t' == t
    else if t.lastSeen == 0 then t' == t.(lastSeen := p.now)
    else
      && t'.lastSeen == p.now
      && forall g: nat {:trigger GapIs(t.lastSeen, p.now, g)} :: GapIs(t.lastSeen, p.now, g) ==>
           && t'.iatSum == (t.iatSum + g) % 0x1_0000_0000_0000_0000
           && t'.iatSqSum == (t.iatSqSum + g * g) % 0x1_0000_0000_0000_0000
           && t'.iatCount == (t.iatCount + 1) % 0x1_0000_0000
  }

  ghost predicate FlagsStep(c: FlagCounts, p: Packet, c': FlagCounts) {
    && c'.syn == (if p.proto.Tcp? && p.flags.syn then (c.syn + 1) % 0x1_0000_0000 else c.syn)
    && c'.ack == (if p.proto.Tcp? && p.flags.ack then (c.ack + 1) % 0x1_0000_0000 else c.ack)
    && c'.psh == (if p.proto.Tcp? && p.flags.psh then (c.psh + 1) % 0x1_0000_0000 else c.psh)
    && c'.urg == (if p.proto.Tcp? && p.flags.urg then (c.urg + 1) % 0x1_0000_0000 else c.urg)
  }

  method AccountLength(l: Lengths, p: Packet, ghost h: Run<Packet>) returns (l': Lengths)
    requires LengthsOk(l, h)
    ensures LengthsOk(l', Snoc(h, p))
    ensures forall n {:trigger HasPayload(p, n)} :: HasPayload(p, n) ==> LengthsStep(l, p, l', n)
  {
    var len := PayloadLen(p);
    Tally(Lens(h), len, l.sum, l.sqSum, l.count);
    assert Lens(Snoc(h, p)) == Snoc(Lens(h), len);
    DirectionTally(h, p);
    l' := l.(sum := Wrap(l.sum + len, U64), sqSum := Wrap(l.sqSum + len * len, U64), count := Wrap(l.count + 1, U32));
    if p.original {
      l' := l'.(bytesFwd := Wrap(l'.bytesFwd + len, U64));
    } else {
      l' := l'.(bytesBwd := Wrap(l'.bytesBwd + len, U64), bwdSqSum := Wrap(l'.bwdSqSum + len * len, U64));
    }
    LengthsAreStepped(l, p, l');
  }

  lemma {:induction false} LengthsAreStepped(l: Lengths, p: Packet, l': Lengths)
    requires var n := PayloadLen(p);
             && l'.sum == Wrap(l.sum + n, U64) && l'.sqSum == Wrap(l.sqSum + n * n, U64) && l'.count == Wrap(l.count + 1, U32)
             && l'.bytesFwd == (if p.original then Wrap(l.bytesFwd + n, U64) else l.bytesFwd)
             && l'.bytesBwd == (if p.original then l.bytesBwd else Wrap(l.bytesBwd + n, U64))
             && l'.bwdSqSum == (if p.original then l.bwdSqSum else Wrap(l.bwdSqSum + n * n, U64))
    ensures forall n {:trigger HasPayload(p, n)} :: HasPayload(p, n) ==> LengthsStep(l, p, l', n)
  {
    var n := PayloadLen(p);
    WrapMod(l.sum + n);
    WrapMod(l.sqSum + n * n);
    WrapMod(l.count + 1);
    WrapMod(l.bytesFwd + n);
    WrapMod(l.bytesBwd + n);
    WrapMod(l.bwdSqSum + n * n);
    forall k | HasPayload(p, k)
      ensures k == n
    {
      PayloadByConstruction(p, k);
    }
  }

  lemma {:induction false} DirectionTally(h: Run<Packet>, p: Packet)
    ensures var own, own', len := Lens(Dir(h, p.original)), Lens(Dir(Snoc(h, p), p.original)), PayloadLen(p);
            && Wrap(Sum(own'), U64) == Wrap(Wrap(Sum(own), U64) + len, U64)
            && Wrap(SumSq(own'), U64) == Wrap(Wrap(SumSq(own), U64) + len * len, U64)
    ensures Dir(Snoc(h, p), !p.original) == Dir(h, !p.original)
  {
    var own, len := Lens(Dir(h, p.original)), PayloadLen(p);
    WrapAdd(Sum(own), len, U64);
    WrapAdd(SumSq(own), len * len, U64);
  }

  method AccountTime(t: Times, p: Packet, ghost h: Run<Packet>) returns (t': Times)
    requires TimesOk(t, h) && AllWellFormed(h)
    ensures TimesOk(t', Snoc(h, p)) && TimesStep(t, p, t')
  {
    t' := t;
    FirstIsPositive(h);
    if t.firstNs == 0 {
      t' := t'.(firstNs := p.now);
    } else {
      var gap := GapUs(t.lastNs, p.now);
      TimesTallied(t, p, h, gap);
      TimesAreStepped(t, p, gap);
      t' := t'.(iatSumUs := Wrap(t.iatSumUs + gap, U64), iatSqSum := Wrap(t.iatSqSum + gap * gap, U64),
                iatCount := Wrap(t.iatCount + 1, U32));
      if gap < t.iatMin { t' := t'.(iatMin := gap); }
    }
    t' := t'.(lastNs := p.now);
  }

  ghost function WithGap(t: Times, gap: nat, now: nat): Times {
    Times(t.firstNs, now, Wrap(t.iatSumUs + gap, U64), Wrap(t.iatSqSum + gap * gap, U64), Wrap(t.iatCount + 1, U32),
          if gap < t.iatMin then gap else t.iatMin)
  }

  lemma {:induction false} TimesTallied(t: Times, p: Packet, h: Run<Packet>, gap: nat)
    requires TimesOk(t, h) && h.Snoc? && gap == GapUs(t.lastNs, p.now)
    ensures TimesOk(WithGap(t, gap, p.now), Snoc(h, p))
  {
    Tally(Gaps(h), gap, t.iatSumUs, t.iatSqSum, t.iatCount);
    assert Gaps(Snoc(h, p)) == Snoc(Gaps(h), gap);
  }

  lemma {:induction false} TimesAreStepped(t: Times, p: Packet, gap: nat)
    requires t.firstNs != 0 && t.lastNs < U64 && gap == GapUs(t.lastNs, p.now)
    ensures TimesStep(t, p, WithGap(t, gap, p.now))
  {
    WrapGap(t.iatSumUs, t.iatSqSum, t.iatCount, gap);
    GapByClock(t.lastNs, p.now);
  }

  lemma {:induction false} WrapGap(sum: nat, sq: nat, count: nat, gap: nat)
    ensures Wrap(sum + gap, U64) == (sum + gap) % 0x1_0000_0000_0000_0000
    ensures Wrap(sq + gap * gap, U64) == (sq + gap * gap) % 0x1_0000_0000_0000_0000
    ensures Wrap(count + 1, U32) == (count + 1) % 0x1_0000_0000
  {
    WrapMod(sum + gap);
    WrapMod(sq + gap * gap);
    WrapMod(count + 1);
  }

  method AccountFwdTime(t: FwdTimes, p: Packet, ghost h: Run<Packet>) returns (t': FwdTimes)
    requires FwdTimesOk(t, h) && AllWellFormed(h)
    ensures FwdTimesOk(t', Snoc(h, p)) && FwdTimesStep(t, p, t')
  {
    t' := t;
    if p.original {
      DirKeepsWellFormed(h, true);
      if t.lastSeen != 0 {
        var gap := GapUs(t.lastSeen, p.now);
        Tally(Gaps(Dir(h, true)), gap, t.iatSum, t.iatSqSum, t.iatCount);
        FwdTimesAreStepped(t, p, gap);
        t' := t'.(iatSum := Wrap(t.iatSum + gap, U64), iatSqSum := Wrap(t.iatSqSum + gap * gap, U64),
                  iatCount := Wrap(t.iatCount + 1, U32));
      }
      t' := t'.(lastSeen := p.now);
    }
  }

  lemma {:induction false} FwdTimesAreStepped(t: FwdTimes, p: Packet, gap: nat)
    requires p.original && t.lastSeen != 0 && t.lastSeen < U64 && gap == GapUs(t.lastSeen, p.now)
    ensures FwdTimesStep(t, p, FwdTimes(p.now, Wrap(t.iatSum + gap, U64), Wrap(t.iatSqSum + gap * gap, U64), Wrap(t.iatCount + 1, U32)))
  {
    WrapGap(t.iatSum, t.iatSqSum, t.iatCount, gap);
    GapByClock(t.lastSeen, p.now);
  }

  lemma {:induction false} CountOne(h: Run<Packet>, p: Packet, f: Flag)
    ensures Wrap(Carrying(Snoc(h, p), f), U32)
            == if Carries(p, f) then Wrap(Wrap(Carrying(h, f), U32) + 1, U32) else Wrap(Carrying(h, f), U32)
  {
    WrapAdd(Carrying(h, f), 1, U32);
  }

  method AccountFlags(c: FlagCounts, p: Packet, ghost h: Run<Packet>) returns (c': FlagCounts)
    requires FlagsOk(c, h)
    ensures FlagsOk(c', Snoc(h, p)) && FlagsStep(c, p, c')
  {
    WrapMod(c.syn + 1);
    WrapMod(c.ack + 1);
    WrapMod(c.psh + 1);
    WrapMod(c.urg + 1);
    CountOne(h, p, Syn);
    CountOne(h, p, Psh);
    CountOne(h, p, Ack);
    CountOne(h, p, Urg);
    c' := c;
    if p.proto.Tcp? {
      if p.flags.syn { c' := c'.(syn := Wrap(c.syn + 1, U32)); }
      if p.flags.psh { c' := c'.(psh := Wrap(c.psh + 1, U32)); }
      if p.flags.ack { c' := c'.(ack := Wrap(c.ack + 1, U32)); }
      if p.flags.urg { c' := c'.(urg := Wrap(c.urg + 1, U32)); }
    }
  }

  // ----- what is captured once, and the extremes of each direction

  /** The advertised window of a SYN of the original direction, else 0. */
  function SynWindow(p: Packet): nat {
    if p.proto.Tcp? && p.original && p.flags.syn then p.window else 0
  }

  /** The first of some numbers that is not 0, or 0. */
  ghost function FirstNonZero(xs: Run<nat>): nat {
    match xs case Nil => 0 case Snoc(init, x) => if FirstNonZero(init) != 0 then FirstNonZero(init) else x
  }

  ghost function Windows(h: Run<Packet>): Run<nat> {
    match h case Nil => Nil case Snoc(init, p) => Snoc(Windows(init), SynWindow(p))
  }

  /** The interfaces of an original packet, if both fit 16 bits. */
  predicate HasInterfaces(p: Packet) {
    p.original && 0 < p.iif <= U16_MAX && p.oif <= U16_MAX
  }

  /** The first packet whose interfaces can be recorded. */
  ghost function FirstWithInterfaces(h: Run<Packet>): Run<Packet> {
    match h
    case Nil => Nil
    case Snoc(init, p) =>
      if FirstWithInterfaces(init) != Nil then FirstWithInterfaces(init) else if HasInterfaces(p) then Snoc(Nil, p) else Nil
  }

  datatype Opening = Opening(iif: nat, oif: nat, window: nat)

  ghost predicate OpeningOk(o: Opening, h: Run<Packet>) {
    && o.window == FirstNonZero(Windows(h))
    && (match FirstWithInterfaces(h) case Nil => o.iif == 0 case Snoc(_, p) => o.iif == p.iif != 0 && o.oif == p.oif)
  }

  /** One direction: shortest and longest payload, and the flags seen, as the set of mask bits. */
  datatype Extremes = Extremes(min: nat, max: nat, seen: set<Flag>)

  ghost predicate ExtremesOk(x: Extremes, h: Run<Packet>) {
    && x.min == Least(Lens(h), U16_MAX) && x.max == Most(Lens(h))
    && forall f :: f in x.seen <==> Carrying(h, f) > 0
  }

  ghost predicate OpeningStep(o: Opening, p: Packet, o': Opening) {
    && (o'.iif, o'.oif) == (if p.original && o.iif == 0 && p.iif <= 65535 && p.oif <= 65535 then (p.iif, p.oif) else (o.iif, o.oif))
    && o'.window == (if p.proto.Tcp? && p.original && p.flags.syn && o.window == 0 then p.window else o.window)
  }

  ghost predicate ExtremesStep(x: Extremes, p: Packet, x': Extremes, n: nat) {
    && x'.min == (if n < x.min then n else x.min) && x'.max == (if n > x.max then n else x.max)
    && (Fin in x'.seen <==> Fin in x.seen || (p.proto.Tcp? && p.flags.fin))
    && (Syn in x'.seen <==> Syn in x.seen || (p.proto.Tcp? && p.flags.syn))
    && (Rst in x'.seen <==> Rst in x.seen || (p.proto.Tcp? && p.flags.rst))
    && (Psh in x'.seen <==> Psh in x.seen || (p.proto.Tcp? && p.flags.psh))
    && (Ack in x'.seen <==> Ack in x.seen || (p.proto.Tcp? && p.flags.ack))
    && (Urg in x'.seen <==> Urg in x.seen || (p.proto.Tcp? && p.flags.urg))
  }

  method AccountOpening(o: Opening, p: Packet, ghost h: Run<Packet>) returns (o': Opening)
    requires OpeningOk(o, h)
    ensures OpeningOk(o', Snoc(h, p)) && OpeningStep(o, p, o')
  {
    o' := o;
    if p.original && o.iif == 0 && p.iif <= U16_MAX && p.oif <= U16_MAX {
      o' := o'.(iif := p.iif, oif := p.oif);
    }
    if p.proto.Tcp? && p.original && p.flags.syn && o.window == 0 {
      o' := o'.(window := p.window);
    }
  }

  function FlagsOf(p: Packet): (fs: set<Flag>)
    ensures forall f :: f in fs <==> Carries(p, f)
  {
    set f | f in {Fin, Syn, Rst, Psh, Ack, Urg} && Carries(p, f)
  }

  method AccountExtremes(x: Extremes, p: Packet, ghost h: Run<Packet>) returns (x': Extremes)
    requires ExtremesOk(x, h)
    ensures ExtremesOk(x', Snoc(h, p))
    ensures forall n {:trigger HasPayload(p, n)} :: HasPayload(p, n) ==> ExtremesStep(x, p, x', n)
  {
    var len := PayloadLen(p);
    x' := x;
    if len < x.min { x' := x'.(min := len); }
    if len > x.max { x' := x'.(max := len); }
    if p.proto.Tcp? { x' := x'.(seen := x.seen + FlagsOf(p)); }
    forall n | HasPayload(p, n)
      ensures ExtremesStep(x, p, x', n)
    {
      PayloadByConstruction(p, n);
    }
  }

  /** The extremes of the packet's own direction; the other direction keeps its own. */
  method AccountBoth(fwd: Extremes, bwd: Extremes, p: Packet, ghost h: Run<Packet>) returns (fwd': Extremes, bwd': Extremes)
    requires ExtremesOk(fwd, Dir(h, true)) && ExtremesOk(bwd, Dir(h, false))
    ensures ExtremesOk(fwd', Dir(Snoc(h, p), true)) && ExtremesOk(bwd', Dir(Snoc(h, p), false))
    ensures if p.original then bwd' == bwd else fwd' == fwd
    ensures forall n {:trigger HasPayload(p, n)} :: HasPayload(p, n) ==>
              if p.original then ExtremesStep(fwd, p, fwd', n) else ExtremesStep(bwd, p, bwd', n)
  {
    fwd', bwd' := fwd, bwd;
    if p.original {
      fwd' := AccountExtremes(fwd, p, Dir(h, true));
    } else {
      bwd' := AccountExtremes(bwd, p, Dir(h, false));
    }
  }

  lemma {:induction false} FirstIsPositive(h: Run<Packet>)
    requires AllWellFormed(h)
    ensures FirstNs(h) == 0 <==> h == Nil
  {
    if h.Snoc? && h.init.Snoc? {
      FirstIsPositive(h.init);
    }
  }

  lemma {:induction false} DirKeepsWellFormed(h: Run<Packet>, o: bool)
    requires AllWellFormed(h)
    ensures AllWellFormed(Dir(h, o))
  {
    if h.Snoc? {
      DirKeepsWellFormed(h.init, o);
    }
  }

  class FlowRecord {
    var lengths: Lengths
    var times: Times
    var fwdTimes: FwdTimes
    var flags: FlagCounts
    var opening: Opening
    var fwd: Extremes
    var bwd: Extremes
    ghost var history: Run<Packet>  // the packets accounted so far

    ghost predicate Valid()
      reads this
    {
      && AllWellFormed(history)
      && LengthsOk(lengths, history) && TimesOk(times, history) && FwdTimesOk(fwdTimes, history) && FlagsOk(flags, history)
      && OpeningOk(opening, history) && ExtremesOk(fwd, Dir(history, true)) && ExtremesOk(bwd, Dir(history, false))
    }

    constructor ()
      ensures Valid() && history == Nil
      ensures lengths == Lengths(0, 0, 0, 0, 0, 0) && times == Times(0, 0, 0, 0, 0, 0xFFFF_FFFF) && fwdTimes == FwdTimes(0, 0, 0, 0)
      ensures flags == FlagCounts(0, 0, 0, 0) && opening == Opening(0, 0, 0)
      ensures fwd == Extremes(0xFFFF, 0, {}) && bwd == Extremes(0xFFFF, 0, {})
    {
      lengths := Lengths(0, 0, 0, 0, 0, 0);
      times := Times(0, 0, 0, 0, 0, U32 - 1);
      fwdTimes := FwdTimes(0, 0, 0, 0);
      flags := FlagCounts(0, 0, 0, 0);
      opening := Opening(0, 0, 0);
      fwd, bwd := Extremes(U16_MAX, 0, {}), Extremes(U16_MAX, 0, {});
      history := Nil;
    }

    /** Account one packet: every accumulator stays the tally of the packets seen, and a packet with
        `n` bytes behind its headers changes each field as told by the relations above. */
    method Account(p: Packet)
      requires Valid() && WellFormed(p)
      modifies this
      ensures Valid() && history == Snoc(old(history), p)
      ensures TimesStep(old(times), p, times) && FwdTimesStep(old(fwdTimes), p, fwdTimes)
      ensures FlagsStep(old(flags), p, flags) && OpeningStep(old(opening), p, opening)
      ensures if p.original then bwd == old(bwd) else fwd == old(fwd)
      ensures forall n {:trigger HasPayload(p, n)} :: HasPayload(p, n) ==>
                && LengthsStep(old(lengths), p, lengths, n)
                && if p.original then ExtremesStep(old(fwd), p, fwd, n) else ExtremesStep(old(bwd), p, bwd, n)
    {
      ghost var h := history;
      var o := AccountOpening(opening, p, h);
      var l := AccountLength(lengths, p, h);
      var t := AccountTime(times, p, h);
      var ft := AccountFwdTime(fwdTimes, p, h);
      var xf, xb := AccountBoth(fwd, bwd, p, h);
      var c := AccountFlags(flags, p, h);
      opening, lengths, times, fwdTimes, fwd, bwd, flags := o, l, t, ft, xf, xb, c;
      history := Snoc(h, p);
    }
  }
}
