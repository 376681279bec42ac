/** Clock arithmetic: the offset estimate of `probe_clock_skew` and the time accounts of `RunMetrics`. */
module Clock {
  import opened Words

  // ---------- the offset estimate (section 8 of RFC 5905) ----------

  /** Division by two that truncates toward zero, as on `i128`. */
  function Half(x: int): int {
    if x >= 0 then x / 2 else -((-x) / 2)
  }

  function ToI64(x: int): I64 {
    if x > TWO_TO_63 - 1 then TWO_TO_63 - 1 else if x < -TWO_TO_63 then -TWO_TO_63 else x
  }

  function Offset(t1: U64, t2: U64, t3: U64, t4: U64): I64 {
    ToI64(Half((t2 - t1) + (t3 - t4)))
  }

  /** Clamped at zero, then narrowed to u64, which truncates. */
  function RoundTrip(t1: U64, t2: U64, t3: U64, t4: U64): U64 {
    var rtt := (t4 - t1) - (t3 - t2);
    (if rtt < 0 then 0 else rtt) % TWO_TO_64
  }

  /** Whatever the two delays and the true offset are, the estimate is within half of the two delays, rounded up,
      of the truth; a true offset beyond i64 is reported as the nearest i64.  The two delays are the reported
      round trip unless they need more than 64 bits. */
  lemma OffsetError(t1: U64, t2: U64, t3: U64, t4: U64, theta: int, outbound: nat, inbound: nat)
    requires t2 == t1 + outbound + theta && t4 == t3 - theta + inbound
    ensures RoundTrip(t1, t2, t3, t4) == outbound + inbound <==> outbound + inbound < TWO_TO_64
    ensures var error := Offset(t1, t2, t3, t4) - ToI64(theta);
      -(outbound + inbound + 1) <= 2 * error <= outbound + inbound + 1
  {
  }

  /** With equal delays the estimate is exact. */
  lemma SymmetricIsExact(t1: U64, t2: U64, t3: U64, t4: U64, theta: int, delay: nat)
    requires t2 == t1 + delay + theta && t4 == t3 - theta + delay
    ensures Offset(t1, t2, t3, t4) == ToI64(theta)
  {
  }

  /** Clocks whose readings leave less than no time for the way are reported as no way at all. */
  lemma NegativeRoundTrip(t1: U64, t2: U64, t3: U64, t4: U64)
    requires t4 - t1 < t3 - t2
    ensures RoundTrip(t1, t2, t3, t4) == 0
  {
  }

  // ---------- the accounts ----------

  datatype Sample = Sample(agentStarted: U64, agentFinished: U64, dispatched: U64, received: U64, offset: I64)

  datatype Totals = Totals(opCount: U64, agent: U64, wall: U64, outbound: I64, inbound: I64)

  function SaturatingSub(a: U64, b: U64): U64 {
    if a < b then 0 else a - b
  }

  function Outbound(s: Sample): int {
    (s.agentStarted - s.offset) - s.dispatched
  }

  function Inbound(s: Sample): int {
    s.received - (s.agentFinished - s.offset)
  }

  /** The narrowing to i64 loses nothing. */
  predicate Fits(s: Sample) {
    ToI64(Outbound(s)) == Outbound(s) && ToI64(Inbound(s)) == Inbound(s)
  }

  function WrapU64(x: int): U64 {
    x % TWO_TO_64
  }

  function WrapI64(x: int): I64 {
    (x + TWO_TO_63) % TWO_TO_64 - TWO_TO_63
  }

  /** One `record`: atomic adds, which wrap. */
  function Add(t: Totals, s: Sample): Totals {
    Totals(WrapU64(t.opCount + 1),
           WrapU64(t.agent + SaturatingSub(s.agentFinished, s.agentStarted)),
           WrapU64(t.wall + SaturatingSub(s.received, s.dispatched)),
           WrapI64(t.outbound + ToI64(Outbound(s))),
           WrapI64(t.inbound + ToI64(Inbound(s))))
  }

  function AddAll(t: Totals, samples: seq<Sample>): Totals
    decreases |samples|
  {
    if samples == [] then t else AddAll(Add(t, samples[0]), samples[1..])
  }

  function Zero(): Totals {
    Totals(0, 0, 0, 0, 0)
  }

  /** Agent time plus both ways on the wire is the wall time, up to the width of the counters. */
  predicate Balanced(t: Totals) {
    (t.agent + t.outbound + t.inbound - t.wall) % TWO_TO_64 == 0
  }

  /** The same sums without counters that wrap. */
  datatype Sums = Sums(count: int, agent: int, wall: int, outbound: int, inbound: int)

  function Plus(a: Sums, s: Sample): Sums {
    Sums(a.count + 1,
         a.agent + SaturatingSub(s.agentFinished, s.agentStarted),
         a.wall + SaturatingSub(s.received, s.dispatched),
         a.outbound + ToI64(Outbound(s)),
         a.inbound + ToI64(Inbound(s)))
  }

  function SumOf(a: Sums, samples: seq<Sample>): Sums
    decreases |samples|
  {
    if samples == [] then a else SumOf(Plus(a, samples[0]), samples[1..])
  }

  function Wrapped(a: Sums): Totals {
    Totals(WrapU64(a.count), WrapU64(a.agent), WrapU64(a.wall), WrapI64(a.outbound), WrapI64(a.inbound))
  }

  /** The sums fit the counters. */
  predicate InCounters(a: Sums) {
    0 <= a.agent < TWO_TO_64 && 0 <= a.wall < TWO_TO_64
    && -TWO_TO_63 <= a.outbound < TWO_TO_63 && -TWO_TO_63 <= a.inbound < TWO_TO_63
  }

  /** How far a clock ran backwards between its two readings. */
  function Backwards(from: U64, to: U64): nat {
    if to < from then from - to else 0
  }

  /** What one sample adds to one side of the account only: a clock that ran backwards, or a narrowing that clipped. */
  function Skew(s: Sample): int {
    Backwards(s.agentStarted, s.agentFinished) - Backwards(s.dispatched, s.received)
    + (ToI64(Outbound(s)) - Outbound(s)) + (ToI64(Inbound(s)) - Inbound(s))
  }

  function TotalSkew(samples: seq<Sample>): int
    decreases |samples|
  {
    if samples == [] then 0 else Skew(samples[0]) + TotalSkew(samples[1..])
  }

  lemma ModShift(x: int, k: int)
    ensures (x + TWO_TO_64 * k) % TWO_TO_64 == x % TWO_TO_64
  {
  }

  lemma WrapU64Shift(x: int) returns (k: int)
    ensures WrapU64(x) == x + TWO_TO_64 * k
  {
    k := -(x / TWO_TO_64);
  }

  lemma WrapI64Shift(x: int) returns (k: int)
    ensures WrapI64(x) == x + TWO_TO_64 * k
  {
    k := -((x + TWO_TO_63) / TWO_TO_64);
  }

  lemma WrapU64Twice(x: int, y: int)
    ensures WrapU64(WrapU64(x) + y) == WrapU64(x + y)
  {
    var k := WrapU64Shift(x);
    ModShift(x + y, k);
  }

  lemma WrapI64Twice(x: int, y: int)
    ensures WrapI64(WrapI64(x) + y) == WrapI64(x + y)
  {
    var k := WrapI64Shift(x);
    ModShift(x + y + TWO_TO_63, k);
  }

  /** Wrapping at every step is wrapping once at the end. */
  lemma {:induction false} RunIsWrappedSum(a: Sums, samples: seq<Sample>)
    ensures AddAll(Wrapped(a), samples) == Wrapped(SumOf(a, samples))
    decreases |samples|
  {
    if samples != [] {
      hide WrapU64, WrapI64, Outbound, Inbound, SaturatingSub, ToI64;
      var s := samples[0];
      WrapU64Twice(a.count, 1);
      WrapU64Twice(a.agent, SaturatingSub(s.agentFinished, s.agentStarted));
      WrapU64Twice(a.wall, SaturatingSub(s.received, s.dispatched));
      WrapI64Twice(a.outbound, ToI64(Outbound(s)));
      WrapI64Twice(a.inbound, ToI64(Inbound(s)));
      RunIsWrappedSum(Plus(a, s), samples[1..]);
    }
  }

  lemma {:induction false} SumsBalance(a: Sums, samples: seq<Sample>)
    ensures var b := SumOf(a, samples);
      b.agent + b.outbound + b.inbound - b.wall == a.agent + a.outbound + a.inbound - a.wall + TotalSkew(samples)
    decreases |samples|
  {
    if samples != [] { SumsBalance(Plus(a, samples[0]), samples[1..]); }
  }

  lemma WrappedBalance(b: Sums)
    ensures Balanced(Wrapped(b)) <==> (b.agent + b.outbound + b.inbound - b.wall) % TWO_TO_64 == 0
    ensures InCounters(b) ==>
      Wrapped(b).agent == b.agent && Wrapped(b).wall == b.wall
      && Wrapped(b).outbound == b.outbound && Wrapped(b).inbound == b.inbound
  {
    hide WrapU64, WrapI64;
    var a := WrapU64Shift(b.agent);
    var w := WrapU64Shift(b.wall);
    var o := WrapI64Shift(b.outbound);
    var i := WrapI64Shift(b.inbound);
    ModShift(b.agent + b.outbound + b.inbound - b.wall, a + o + i - w);
  }

  /** The account of every run: agent time plus both ways on the wire differs from the wall time by the total
      skew, exactly while the sums fit the counters and modulo 2^64 for ever after.  The clock offsets, right or
      wrong, cancel. */
  lemma RunBalances(samples: seq<Sample>)
    ensures Balanced(AddAll(Zero(), samples)) <==> TotalSkew(samples) % TWO_TO_64 == 0
    ensures var t := AddAll(Zero(), samples);
      InCounters(SumOf(Sums(0, 0, 0, 0, 0), samples)) ==>
        t.agent + t.outbound + t.inbound == t.wall + TotalSkew(samples)
  {
    var none := Sums(0, 0, 0, 0, 0);
    RunIsWrappedSum(none, samples);
    SumsBalance(none, samples);
    WrappedBalance(SumOf(none, samples));
  }

  /** A run whose clocks never run backwards and whose one-way times fit i64 has no skew at all. */
  lemma {:induction false} NoSkew(samples: seq<Sample>)
    requires forall i :: 0 <= i < |samples| ==>
      Fits(samples[i]) && samples[i].agentStarted <= samples[i].agentFinished && samples[i].dispatched <= samples[i].received
    ensures TotalSkew(samples) == 0
    decreases |samples|
  {
    if samples != [] { NoSkew(samples[1..]); }
  }

  // ---------- what the counters mean ----------

  /** What really happened: the agent's clock is `offset` ahead, the message took `outbound` and the reply
      `inbound`. */
  datatype Trip = Trip(outbound: nat, inbound: nat, work: nat)

  predicate Describes(trip: Trip, s: Sample) {
    s.agentStarted == s.dispatched + trip.outbound + s.offset
    && s.agentFinished == s.agentStarted + trip.work
    && s.received == s.agentFinished - s.offset + trip.inbound
    && trip.outbound < TWO_TO_63 && trip.inbound < TWO_TO_63
  }

  function Outbounds(trips: seq<Trip>): nat {
    if trips == [] then 0 else trips[0].outbound + Outbounds(trips[1..])
  }

  function Inbounds(trips: seq<Trip>): nat {
    if trips == [] then 0 else trips[0].inbound + Inbounds(trips[1..])
  }

  function Work(trips: seq<Trip>): nat {
    if trips == [] then 0 else trips[0].work + Work(trips[1..])
  }

  lemma {:induction false} SumsAreTimes(a: Sums, samples: seq<Sample>, trips: seq<Trip>)
    requires |samples| == |trips| && forall i :: 0 <= i < |samples| ==> Describes(trips[i], samples[i])
    ensures var b := SumOf(a, samples);
      b.count == a.count + |trips| && b.agent == a.agent + Work(trips)
      && b.outbound == a.outbound + Outbounds(trips) && b.inbound == a.inbound + Inbounds(trips)
      && b.wall == a.wall + Work(trips) + Outbounds(trips) + Inbounds(trips)
    decreases |samples|
  {
    if samples != [] { SumsAreTimes(Plus(a, samples[0]), samples[1..], trips[1..]); }
  }

  /** With the right offsets the counters hold the true sums, as far as these fit: the number of operations, the
      work of the agent, the time on either way, and the time from dispatch to reply. */
  lemma TotalsAreTimes(samples: seq<Sample>, trips: seq<Trip>)
    requires |samples| == |trips| < TWO_TO_64 && forall i :: 0 <= i < |samples| ==> Describes(trips[i], samples[i])
    requires Work(trips) + Outbounds(trips) + Inbounds(trips) < TWO_TO_63
    ensures var t := AddAll(Zero(), samples);
      t.opCount == |trips| && t.agent == Work(trips) && t.outbound == Outbounds(trips) && t.inbound == Inbounds(trips)
      && t.wall == Work(trips) + Outbounds(trips) + Inbounds(trips)
  {
    var none := Sums(0, 0, 0, 0, 0);
    RunIsWrappedSum(none, samples);
    SumsAreTimes(none, samples, trips);
    hide SumOf, AddAll, Work, Outbounds, Inbounds;
    WrappedBalance(SumOf(none, samples));
    CountFits(|trips|);
  }

  lemma CountFits(n: nat)
    requires n < TWO_TO_64
    ensures WrapU64(n) == n
  {
  }

  function Total(xs: seq<U64>): nat {
    if xs == [] then 0 else xs[0] + Total(xs[1..])
  }

  function Saturated(a: U64, xs: seq<U64>): U64
    decreases |xs|
  {
    if xs == [] then a else Saturated(SaturatingAdd(a, xs[0]), xs[1..])
  }

  /** A counter that saturates at every step holds the sum, or the greatest number it can hold. */
  lemma {:induction false} SaturatedIsSum(a: U64, xs: seq<U64>)
    ensures Saturated(a, xs) == if a + Total(xs) < 0x1_0000_0000_0000_0000 then a + Total(xs) else 0xFFFF_FFFF_FFFF_FFFF
    decreases |xs|
  {
    if xs != [] { SaturatedIsSum(SaturatingAdd(a, xs[0]), xs[1..]); }
  }

  datatype PerOp = PerOp(count: U64, agent: U64, wall: U64)

  function SaturatingAdd(a: U64, b: U64): U64 {
    if a + b >= TWO_TO_64 then TWO_TO_64 - 1 else a + b
  }

  class RunMetrics {
    var totals: Totals
    var perOp: map<string, PerOp>

    constructor ()
      ensures totals == Zero() && perOp == map[]
    {
      totals, perOp := Zero(), map[];
    }

    method Record(s: Sample, op: string)
      modifies this
      ensures totals == Add(old(totals), s)
      ensures perOp.Keys == old(perOp).Keys + {op}
      ensures forall k :: k in old(perOp) && k != op ==> perOp[k] == old(perOp)[k]
      ensures var before := if op in old(perOp) then old(perOp)[op] else PerOp(0, 0, 0);
        perOp[op] == PerOp(SaturatingAdd(before.count, 1),
                           SaturatingAdd(before.agent, SaturatingSub(s.agentFinished, s.agentStarted)),
                           SaturatingAdd(before.wall, SaturatingSub(s.received, s.dispatched)))
    {
      var agentNs := SaturatingSub(s.agentFinished, s.agentStarted);
      var wallNs := SaturatingSub(s.received, s.dispatched);
      totals := Totals(WrapU64(totals.opCount + 1),
                       WrapU64(totals.agent + agentNs),
                       WrapU64(totals.wall + wallNs),
                       WrapI64(totals.outbound + ToI64(Outbound(s))),
                       WrapI64(totals.inbound + ToI64(Inbound(s))));
      var entry := if op in perOp then perOp[op] else PerOp(0, 0, 0);
      perOp := perOp[op := PerOp(SaturatingAdd(entry.count, 1),
                                 SaturatingAdd(entry.agent, agentNs),
                                 SaturatingAdd(entry.wall, wallNs))];
    }
  }
}
