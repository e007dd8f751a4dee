// Counters that are not stepped but computed from the virtual clock, and the deadlines
// derived from them.
module VirtualTime {
  import opened Arithmetic

  const NS: nat := 1_000_000_000
  const U64: nat := 0x1_0000_0000_0000_0000

  // muldiv64: a wide product, divided, cut to 64 bits
  function MulDiv(a: nat, b: nat, c: nat): nat
    requires c > 0
  {
    a * b / c % U64
  }

  // Whole ticks in e nanoseconds.
  function Ticks(e: nat, hz: nat): nat { MulDiv(e, hz, NS) }

  // Nanoseconds until t ticks should have passed, rounded down.
  function Delay(t: nat, hz: nat): nat
    requires hz > 0
  {
    MulDiv(t, NS, hz)
  }

  // Ticks fit in 64 bits when the nanoseconds do.
  lemma TicksFit(e: nat, hz: nat)
    requires hz <= NS && e < U64
    ensures Ticks(e, hz) == e * hz / NS <= e
  {
    Scaled(e, hz, NS);
    QuotientBound(e * hz, e);
  }

  lemma Scaled(e: nat, a: nat, b: nat)
    requires a <= b
    ensures e * a <= e * b
  {
  }

  lemma QuotientBound(x: nat, e: nat)
    requires x <= e * NS
    ensures x / NS <= e
  {
  }

  // After e nanoseconds, waiting for t more ticks' worth of nanoseconds, rounded down,
  // ends with the count exactly t further, or one short of that; which of the two depends
  // on the two remainders.
  lemma RoundedWait(e: nat, hz: nat, t: nat)
    requires 0 < hz <= NS
    ensures (e + t * NS / hz) * hz / NS ==
            e * hz / NS + t - if e * hz % NS >= t * NS % hz then 0 else 1
    ensures (e + t * NS / hz) * hz % NS ==
            e * hz % NS - t * NS % hz + if e * hz % NS >= t * NS % hz then 0 else NS
  {
    var q, r, d, s := e * hz / NS, e * hz % NS, t * NS / hz, t * NS % hz;
    var short := if r >= s then 0 else 1;
    assert e * hz == q * NS + r && t * NS == d * hz + s;
    assert (e + d) * hz == e * hz + d * hz;
    assert (e + d) * hz == (q + t - short) * NS + (r - s + short * NS);
    DivisionIs((e + d) * hz, NS, q + t - short, r - s + short * NS);
  }

  // When a wait came out one tick short, waiting for that last tick comes out exact.
  lemma LastTickIsExact(e: nat, hz: nat, t: nat)
    requires 0 < hz <= NS / 2 && e * hz % NS < t * NS % hz
    ensures (e + t * NS / hz + NS / hz) * hz / NS == e * hz / NS + t
  {
    RoundedWait(e, hz, t);
    RoundedWait(e + t * NS / hz, hz, 1);
    assert t * NS % hz < hz && NS % hz < hz;
  }

  lemma WaitIsPositive(hz: nat, t: nat)
    requires 0 < hz <= NS / 2 && t > 0
    ensures t * NS / hz >= 2
  {
  }

  // ----- Re-anchoring ------------------------------------------------------------------

  function Total(gaps: seq<nat>): nat {
    if gaps == [] then 0 else Total(gaps[..|gaps| - 1]) + gaps[|gaps| - 1]
  }

  // Ticks counted when the count is settled, and its fraction dropped, after every gap.
  function SettledTicks(gaps: seq<nat>, hz: nat): nat {
    if gaps == [] then 0 else SettledTicks(gaps[..|gaps| - 1], hz) + gaps[|gaps| - 1] * hz / NS
  }

  lemma SplitTicks(a: nat, b: nat, hz: nat)
    ensures var lost := (a + b) * hz / NS - a * hz / NS - b * hz / NS; 0 <= lost <= 1
  {
  }

  // Settling the count n times on the way loses at most n ticks, and gains none.
  lemma {:induction false} SettlingLosesLittle(gaps: seq<nat>, hz: nat)
    requires gaps != []
    ensures Total(gaps) * hz / NS - (|gaps| - 1) <= SettledTicks(gaps, hz) <= Total(gaps) * hz / NS
  {
    var front, last := gaps[..|gaps| - 1], gaps[|gaps| - 1];
    if front == [] {
      assert Total(front) == 0 && SettledTicks(front, hz) == 0;
    } else {
      SettlingLosesLittle(front, hz);
      SplitTicks(Total(front), last, hz);
    }
  }
}
