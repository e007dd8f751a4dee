// The two lazily computed counters: how they run on, and when their timers fire.
module Counting {
  import opened Arithmetic
  import opened Rcc
  import opened VirtualTime

  // ----- SysTick -----------------------------------------------------------------------

  // A running SysTick: count at the epoch, epoch, frequency and compare value.
  datatype Stk = Stk(cnt: nat, epoch: nat, hz: nat, cmp: nat) {
    // The count the registers show, in 64-bit arithmetic.
    function Shown(now: nat): nat {
      if hz == 0 || now < epoch then cnt else (cnt + Ticks(now - epoch, hz)) % U64
    }

    // The instant the timer is armed for, in 64-bit arithmetic, and the instant meant.
    function Armed(now: nat): (x: nat)
      requires hz > 0 && cmp > 0
      ensures x < U64
    {
      (now + Delay(ToWrap(Shown(now), cmp), hz)) % U64
    }

    function Due(now: nat): nat
      requires hz > 0 && cmp > 0
    {
      now + ToWrap(Shown(now), cmp) * NS / hz
    }

    // The instant of the k-th timer callback after now, each one arming the next.
    function Alarms(now: nat, k: nat): nat
      requires hz > 0 && cmp > 0
    {
      if k == 0 then now else Armed(Alarms(now, k - 1))
    }

    // Armed in the future, for an instant that shows the next wrap or one short of it.
    predicate OnTime(now: nat)
      requires hz > 0 && cmp > 0
    {
      var w, shown := Wrap(Shown(now), cmp), Shown(Armed(now));
      now < Armed(now) && (shown == w % U64 || shown == (w - 1) % U64)
    }

    // Count and expiry without the limits of 64 bits.
    function Count(now: nat): nat
      requires epoch <= now
    {
      cnt + (now - epoch) * hz / NS
    }

    function Expiry(now: nat): (x: nat)
      requires hz > 0 && cmp > 0 && epoch <= now
      ensures x >= now
    {
      now + ToWrap(Count(now), cmp) * NS / hz
    }

    // The instant of the k-th timer expiry after now, each one arming the next.
    function Expiries(now: nat, k: nat): (x: nat)
      requires hz > 0 && cmp > 0 && epoch <= now
      ensures x >= now
    {
      if k == 0 then now else Expiry(Expiries(now, k - 1))
    }

    predicate Running() {
      0 < hz <= HZ_MAX && cmp > 0
    }
  }

  function ToWrap(c: nat, cmp: nat): (t: nat)
    requires cmp > 0
    ensures t > 0
  {
    if c % cmp == 0 then cmp else cmp - c % cmp
  }

  // The next multiple of the compare value.
  function Wrap(c: nat, cmp: nat): nat
    requires cmp > 0
  {
    (c / cmp + 1) * cmp
  }

  lemma WrapIsNext(c: nat, cmp: nat)
    requires cmp > 0
    ensures c + ToWrap(c, cmp) == Wrap(c, cmp) && Wrap(c, cmp) % cmp == 0
    ensures c < Wrap(c, cmp) <= c + cmp
    ensures forall x :: c < x < Wrap(c, cmp) ==> x % cmp != 0
  {
    var q, r := c / cmp, c % cmp;
    assert c == q * cmp + r && (q + 1) * cmp == q * cmp + cmp;
    DivisionIs(Wrap(c, cmp), cmp, q + 1, 0);
    forall x | c < x < Wrap(c, cmp) ensures x % cmp != 0 {
      DivisionIs(x, cmp, q, x - q * cmp);
    }
  }

  // One short of a wrap, the next wrap is still that one, a single tick away.
  lemma OneShort(c: nat, cmp: nat)
    requires cmp > 0
    ensures Wrap(Wrap(c, cmp) - 1, cmp) == Wrap(c, cmp) && ToWrap(Wrap(c, cmp) - 1, cmp) == 1
    ensures Wrap(c, cmp) / cmp == c / cmp + 1 && (Wrap(c, cmp) - 1) / cmp == c / cmp
  {
    var q := c / cmp;
    assert (q + 1) * cmp == q * cmp + cmp;
    DivisionIs(Wrap(c, cmp) - 1, cmp, q, cmp - 1);
    DivisionIs(Wrap(c, cmp), cmp, q + 1, 0);
  }

  // ----- Ideal counts ------------------------------------------------------------------

  // At the expiry, strictly later than now, the count has reached the next wrap or is
  // exactly one short of it; it is exact if and only if the fraction of a tick already
  // elapsed covers what rounding down the delay cost.
  lemma ExpiryNearWrap(s: Stk, now: nat)
    requires s.Running() && s.epoch <= now
    ensures now < s.Expiry(now)
    ensures var w, t := Wrap(s.Count(now), s.cmp), ToWrap(s.Count(now), s.cmp);
            s.Count(s.Expiry(now)) ==
            if (now - s.epoch) * s.hz % NS >= t * NS % s.hz then w else w - 1
  {
  }

  lemma ShortThenExact(s: Stk, now: nat)
    requires s.Running() && s.epoch <= now
    ensures var w, x := Wrap(s.Count(now), s.cmp), s.Expiry(now);
            s.Count(x) != w ==> s.Count(x) == w - 1 && s.Count(s.Expiry(x)) == w
  {
    var e, t, x := now - s.epoch, ToWrap(s.Count(now), s.cmp), s.Expiry(now);
    ExpiryNearWrap(s, now);
    WrapIsNext(s.Count(now), s.cmp);
    if s.Count(x) != Wrap(s.Count(now), s.cmp) {
      OneShort(s.Count(now), s.cmp);
      LastTickIsExact(e, s.hz, t);
      assert s.Expiry(x) - s.epoch == e + t * NS / s.hz + NS / s.hz;
    }
  }

  lemma {:induction false} WrapMet(s: Stk, now: nat, m: nat) returns (k: nat)
    requires s.Running() && s.epoch <= now && m > 0
    ensures 0 < k <= 2 * m && s.Count(s.Expiries(now, k)) == (s.Count(now) / s.cmp + m) * s.cmp
  {
    k := 0;
    if m > 1 {
      k := WrapMet(s, now, m - 1);
      DivisionIs(s.Count(s.Expiries(now, k)), s.cmp, s.Count(now) / s.cmp + (m - 1), 0);
    }
    var x := s.Expiries(now, k);
    assert s.Count(x) / s.cmp + 1 == s.Count(now) / s.cmp + m;
    ShortThenExact(s, x);
    if s.Count(s.Expiry(x)) == Wrap(s.Count(x), s.cmp) {
      assert s.Expiries(now, k + 1) == s.Expiry(x);
      k := k + 1;
    } else {
      assert s.Expiries(now, k + 1) == s.Expiry(x);
      assert s.Expiries(now, k + 2) == s.Expiry(s.Expiry(x));
      k := k + 2;
    }
  }

  // ----- The machine's 64 bits ---------------------------------------------------------

  // The count shown is the ideal one modulo 2^64, and the deadline armed is the ideal one
  // exactly when that lies below 2^64.
  lemma FitsIn64(s: Stk, now: nat)
    requires s.Running() && s.epoch <= now && now - s.epoch < U64
    ensures s.Shown(now) == s.Count(now) % U64
    ensures s.Shown(now) == s.Count(now) <==> s.Count(now) < U64
    ensures s.Count(now) < U64 ==> (s.Armed(now) == s.Expiry(now) <==> s.Expiry(now) < U64)
  {
    TicksFit(now - s.epoch, s.hz);
    Below64(s.Count(now));
    ArmedIsDue(s, now);
  }

  lemma Below64(x: nat)
    ensures x % U64 < U64 && (x < U64 ==> x % U64 == x)
  {
  }

  lemma ArmedIsDue(s: Stk, now: nat)
    requires s.Running()
    ensures s.Armed(now) == s.Due(now) <==> s.Due(now) < U64
    ensures s.Due(now) >= U64 && now < s.Armed(now) && now < U64 ==> s.Armed(now) + U64 <= s.Due(now)
  {
    Folded(now, ToWrap(s.Shown(now), s.cmp) * NS / s.hz);
  }

  lemma Folded(now: nat, d: nat)
    ensures (now + d % U64) % U64 == now + d <==> now + d < U64
    ensures now + d >= U64 && now < (now + d % U64) % U64 && now < U64 ==> (now + d % U64) % U64 + U64 <= now + d
  {
  }

  // The deadline is right, within one tick as above, if and only if the instant meant lies
  // below 2^64.
  lemma OnTimeIff(s: Stk, now: nat)
    requires s.Running() && s.cmp < U64 && s.epoch <= now < U64
    ensures s.OnTime(now) <==> s.Due(now) < U64
    ensures s.Due(now) < U64 ==>
              var w, t := Wrap(s.Shown(now), s.cmp), ToWrap(s.Shown(now), s.cmp);
              s.Shown(s.Armed(now)) ==
              (if (now - s.epoch) * s.hz % NS >= t * NS % s.hz then w else w - 1) % U64
  {
    FitsIn64(s, now);
    ArmedIsDue(s, now);
    WrapIsNext(s.Shown(now), s.cmp);
    WaitIsPositive(s.hz, ToWrap(s.Shown(now), s.cmp));
    if s.Due(now) < U64 {
      DueNearWrap(s, now);
    } else if now < s.Armed(now) {
      FarTooEarly(s, now);
    }
  }

  lemma DueNearWrap(s: Stk, now: nat)
    requires s.Running() && s.epoch <= now && s.Due(now) < U64
    requires s.Shown(now) == s.Count(now) % U64
    ensures var w, t := Wrap(s.Shown(now), s.cmp), ToWrap(s.Shown(now), s.cmp);
            s.Shown(s.Due(now)) ==
            (if (now - s.epoch) * s.hz % NS >= t * NS % s.hz then w else w - 1) % U64
  {
    var t, x, e := ToWrap(s.Shown(now), s.cmp), s.Due(now), now - s.epoch;
    WrapIsNext(s.Shown(now), s.cmp);
    RoundedWait(e, s.hz, t);
    assert x - s.epoch == e + t * NS / s.hz;
    FitsIn64(s, x);
    var short := if e * s.hz % NS >= t * NS % s.hz then 0 else 1;
    assert s.Count(x) == s.Count(now) + (t - short);
    AddedModulo(s.Count(now), t - short);
  }

  lemma AddedModulo(x: nat, y: nat)
    ensures (x + y) % U64 == (x % U64 + y) % U64
  {
  }

  lemma FarTooEarly(s: Stk, now: nat)
    requires s.Running() && s.cmp < U64 && s.epoch <= now < s.Armed(now) && now < U64
    requires s.Armed(now) + U64 <= s.Due(now) && s.Shown(now) == s.Count(now) % U64
    ensures !s.OnTime(now)
  {
    var t, a := ToWrap(s.Shown(now), s.cmp), s.Armed(now);
    WrapIsNext(s.Shown(now), s.cmp);
    EarlyCount(s, now, t, a);
    FitsIn64(s, a);
    EarlyModulo(s.Count(now), s.Count(a) - s.Count(now), t);
  }

  lemma EarlyCount(s: Stk, now: nat, t: nat, a: nat)
    requires s.Running() && s.epoch <= now <= a && a + U64 <= now + t * NS / s.hz
    ensures s.Count(now) <= s.Count(a) && s.Count(a) + 2 <= s.Count(now) + t
  {
    var x := now + t * NS / s.hz;
    RoundedWait(now - s.epoch, s.hz, t);
    assert x - s.epoch == now - s.epoch + t * NS / s.hz;
    TicksApart(a - s.epoch, x - s.epoch, s.hz);
    TicksApart(now - s.epoch, a - s.epoch, s.hz);
  }

  lemma EarlyModulo(c: nat, early: nat, t: nat)
    requires early + 2 <= t < U64
    ensures (c + early) % U64 != (c % U64 + t) % U64 && (c + early) % U64 != (c % U64 + t - 1) % U64
  {
    AddedModulo(c, early);
    NotSameModulo(c % U64 + early, t - early);
    NotSameModulo(c % U64 + early, t - 1 - early);
  }

  // Ticks never run backwards, and 2^64 nanoseconds apart they differ by more than two.
  lemma TicksApart(a: nat, b: nat, hz: nat)
    requires a <= b && hz > 0
    ensures a * hz / NS <= b * hz / NS
    ensures a + U64 <= b ==> a * hz / NS + 2 <= b * hz / NS
  {
    var gap := b - a;
    assert b * hz == a * hz + gap * hz;
    Scaled(gap, 1, hz);
  }

  lemma NotSameModulo(x: nat, d: nat)
    requires 0 < d < U64
    ensures x % U64 != (x + d) % U64
  {
  }

  // When a callback comes one tick short of a wrap below 2^64, the next one meets it.
  lemma NextAlarmMeetsWrap(s: Stk, now: nat)
    requires s.Running() && s.cmp < U64 && s.epoch <= now < U64
    requires s.Due(now) < U64 && Wrap(s.Shown(now), s.cmp) < U64 && s.Count(now) < U64
    ensures var w, x := Wrap(s.Shown(now), s.cmp), s.Armed(now);
            s.Shown(x) == w || (s.Shown(x) == w - 1 && (s.Due(x) < U64 ==> s.Shown(s.Armed(x)) == w))
  {
    var w, x := Wrap(s.Shown(now), s.cmp), s.Armed(now);
    FitsIn64(s, now);
    ArmedIsDue(s, now);
    ShortThenExact(s, now);
    ExpiryNearWrap(s, now);
    FitsIn64(s, x);
    ArmedIsDue(s, x);
    if s.Shown(x) != w && s.Due(x) < U64 { FitsIn64(s, s.Armed(x)); }
  }

  // No wrap is missed: when every callback is served at its instant, the m-th wrap from
  // now is met exactly by one of the first 2m, as long as these stay within 64 bits.
  lemma NoWrapMissed(s: Stk, now: nat, m: nat) returns (k: nat)
    requires s.Running() && s.epoch <= now && m > 0
    requires s.Expiries(now, 2 * m) < U64 && s.Count(s.Expiries(now, 2 * m)) < U64
    ensures 0 < k <= 2 * m && s.Shown(s.Alarms(now, k)) == (s.Shown(now) / s.cmp + m) * s.cmp
  {
    k := WrapMet(s, now, m);
    AlarmsAreExpiries(s, now, k, 2 * m);
    AlarmsAreExpiries(s, now, 0, 2 * m);
    FitsIn64(s, now);
    FitsIn64(s, s.Expiries(now, k));
  }

  lemma {:induction false} AlarmsAreExpiries(s: Stk, now: nat, k: nat, n: nat)
    requires s.Running() && s.epoch <= now && k <= n
    requires s.Expiries(now, n) < U64 && s.Count(s.Expiries(now, n)) < U64
    ensures s.Alarms(now, k) == s.Expiries(now, k) < U64 && s.Count(s.Expiries(now, k)) < U64
    decreases n, k
  {
    ExpiriesAscend(s, now, k, n);
    if k > 0 {
      AlarmsAreExpiries(s, now, k - 1, n);
      FitsIn64(s, s.Expiries(now, k - 1));
    }
  }

  lemma {:induction false} ExpiriesAscend(s: Stk, now: nat, k: nat, n: nat)
    requires s.Running() && s.epoch <= now && k <= n
    ensures s.Expiries(now, k) <= s.Expiries(now, n) && s.Count(s.Expiries(now, k)) <= s.Count(s.Expiries(now, n))
    decreases n
  {
    if k < n {
      ExpiriesAscend(s, now, k, n - 1);
      TicksApart(s.Expiries(now, n - 1) - s.epoch, s.Expiries(now, n) - s.epoch, s.hz);
    }
  }

  // The limit is within reach of the registers: after reset, with a compare value of 2^61,
  // the delay is cut to nothing and the timer is armed for this very instant.
  lemma FarCompare()
    ensures var s := Stk(0, 0, StkHz(Rcc(0, 8_000_000, 8_000_000), false), 0x2000_0000_0000_0000);
            s.Running() && s.Armed(0) == 0 && !s.OnTime(0)
  {
    assert Hclk(Rcc(0, 8_000_000, 8_000_000)) == 8_000_000;
    assert 0x2000_0000_0000_0000 * NS / 1_000_000 == 125 * U64;
  }

  // ----- The general timers ------------------------------------------------------------

  // A counter stepped once per tick, wrapping behind its reload value.
  function Stepped(cnt: nat, reload: nat, n: nat): nat {
    if n == 0 then cnt
    else
      var c := Stepped(cnt, reload, n - 1);
      if c >= reload then 0 else c + 1
  }

  function CountAfter(base: nat, reload: nat, ticks: nat): nat {
    (base + ticks) % (reload + 1)
  }

  // The computed count is the stepped one.
  lemma {:induction false} CountIsStepped(base: nat, reload: nat, n: nat)
    requires base <= reload
    ensures CountAfter(base, reload, n) == Stepped(base, reload, n)
  {
    if n == 0 {
      DivisionIs(base, reload + 1, 0, base);
    } else {
      CountIsStepped(base, reload, n - 1);
      NextCount(base + n - 1, reload + 1);
    }
  }

  // Above the reload value it is not, save in one family: the first step goes to 0, and so
  // the count agrees from then on exactly when the base is one short of a multiple.
  lemma CountIsSteppedIff(base: nat, reload: nat, n: nat)
    ensures CountAfter(base, reload, n) == Stepped(base, reload, n) <==>
            base <= reload || (n > 0 && (base + 1) % (reload + 1) == 0)
  {
    var m := reload + 1;
    if base <= reload {
      CountIsStepped(base, reload, n);
    } else if n > 0 {
      SteppedOn(base, reload, 1, n - 1);
      CountIsStepped(0, reload, n - 1);
      assert Stepped(base, reload, 1) == 0 by { assert Stepped(base, reload, 0) == base; }
      SameResidue(base + 1, n - 1, m);
    }
  }

  lemma SameResidue(a: nat, x: nat, m: nat)
    requires m > 0
    ensures (a + x) % m == x % m <==> a % m == 0
  {
    var r := a % m;
    assert a == a / m * m + r && x == x / m * m + x % m;
    if r + x % m < m {
      assert (a / m + x / m) * m == a / m * m + x / m * m;
      DivisionIs(a + x, m, a / m + x / m, r + x % m);
    } else {
      assert (a / m + x / m + 1) * m == a / m * m + x / m * m + m;
      DivisionIs(a + x, m, a / m + x / m + 1, r + x % m - m);
    }
  }

  lemma {:induction false} SteppedOn(cnt: nat, reload: nat, n: nat, m: nat)
    ensures Stepped(Stepped(cnt, reload, n), reload, m) == Stepped(cnt, reload, n + m)
  {
    if m > 0 { SteppedOn(cnt, reload, n, m - 1); }
  }

  lemma {:induction false} SteppedBelow(cnt: nat, reload: nat, n: nat)
    requires cnt <= reload
    ensures Stepped(cnt, reload, n) <= reload
  {
  }

  // The count settled after every gap.
  function Settled(base: nat, reload: nat, gaps: seq<nat>, hz: nat): nat {
    if gaps == [] then base
    else CountAfter(Settled(base, reload, gaps[..|gaps| - 1], hz), reload, gaps[|gaps| - 1] * hz / NS)
  }

  // Settling the count on the way costs ticks but never corrupts it: it stays the stepped
  // count, of at most one tick fewer per re-anchoring.
  lemma {:induction false} SettledIsStepped(base: nat, reload: nat, gaps: seq<nat>, hz: nat)
    requires base <= reload
    ensures Settled(base, reload, gaps, hz) == Stepped(base, reload, SettledTicks(gaps, hz))
  {
    if gaps != [] {
      var front, last := gaps[..|gaps| - 1], gaps[|gaps| - 1] * hz / NS;
      SettledIsStepped(base, reload, front, hz);
      SteppedBelow(base, reload, SettledTicks(front, hz));
      CountIsStepped(Settled(base, reload, front, hz), reload, last);
      SteppedOn(base, reload, SettledTicks(front, hz), last);
    }
  }

  // Against a counter that is never settled, n re-anchorings cost at most n ticks.
  lemma ReanchoringLoss(base: nat, reload: nat, gaps: seq<nat>, hz: nat) returns (lost: nat)
    requires base <= reload && gaps != []
    ensures lost <= |gaps| - 1 && lost <= Total(gaps) * hz / NS
    ensures Settled(base, reload, gaps, hz) == Stepped(base, reload, Total(gaps) * hz / NS - lost)
  {
    SettledIsStepped(base, reload, gaps, hz);
    SettlingLosesLittle(gaps, hz);
    lost := Total(gaps) * hz / NS - SettledTicks(gaps, hz);
  }

  // A running timer: count at the epoch, epoch, reload value and frequency.
  datatype Tim = Tim(base: nat, epoch: nat, reload: nat, hz: nat) {
    // ch32_tim_cnt_now_at while CEN is set
    function Shown(now: nat): nat {
      if hz == 0 || now <= epoch then base % 0x1_0000
      else (base + Ticks(now - epoch, hz)) % U64 % (reload + 1) % 0x1_0000
    }

    // Ticks to the next update, in 32-bit arithmetic, and the instant meant.
    function Left(now: nat): nat {
      var left := (reload + 1 - Shown(now)) % 0x1_0000_0000;
      if left == 0 then reload + 1 else left
    }

    function Due(now: nat): nat
      requires hz > 0
    {
      now + Left(now) * NS / hz
    }

    function Armed(now: nat): nat
      requires hz > 0
    {
      (now + Delay(Left(now), hz)) % U64
    }

    // The count without the limits of the machine's integers.
    function Count(now: nat): nat
      requires epoch <= now
    {
      CountAfter(base, reload, (now - epoch) * hz / NS)
    }

    predicate Running() {
      base < 0x1_0000 && reload < 0x1_0000 && 0 < hz <= HZ_MAX
    }

    // The count was not just set more than one past the reload value.
    predicate InPeriod(now: nat) {
      now > epoch || base <= reload + 1
    }
  }

  // The count shown is the stepped one, for as long as the clock stays within 64 bits.
  lemma TimerShowsSteps(t: Tim, now: nat)
    requires t.Running() && t.base <= t.reload && t.epoch <= now && now - t.epoch < U64 / 2
    ensures t.Shown(now) == Stepped(t.base, t.reload, (now - t.epoch) * t.hz / NS)
  {
    var ticks := (now - t.epoch) * t.hz / NS;
    CountIsStepped(t.base, t.reload, ticks);
    ShownIsCount(t, now);
    assert t.Count(now) == CountAfter(t.base, t.reload, ticks);
  }

  // The timer is armed in the future exactly when the instant meant lies below 2^64.  At
  // that instant the count shown has wrapped to 0 or is still at its reload value, one tick
  // short; which one is decided as for SysTick.
  lemma TimerMeetsUpdate(t: Tim, now: nat)
    requires t.Running() && t.InPeriod(now) && t.epoch <= now < U64 && now - t.epoch < U64 / 2
    ensures now < t.Armed(now) <==> t.Due(now) < U64
    ensures t.Due(now) < U64 ==>
              t.Shown(t.Armed(now)) ==
              if (now - t.epoch) * t.hz % NS >= t.Left(now) * NS % t.hz then 0 else t.reload
  {
    TimerArmedIff(t, now);
    if t.Due(now) < U64 {
      TimerDueNearWrap(t, now);
      DueSince(t, now);
      LeftInPeriod(t, now);
      DelayBound(t.Left(now), t.hz);
      ShownIsCount(t, t.Due(now));
    }
  }

  lemma TimerArmedIff(t: Tim, now: nat)
    requires t.Running() && t.InPeriod(now) && t.epoch <= now < U64 && now - t.epoch < U64 / 2
    ensures now < t.Armed(now) <==> t.Due(now) < U64
    ensures t.Due(now) < U64 ==> t.Armed(now) == t.Due(now)
  {
    LeftIs(t, now);
    ShownIsCount(t, now);
    DelayBound(t.Left(now), t.hz);
    WaitIsPositive(t.hz, t.Left(now));
    Folded(now, t.Left(now) * NS / t.hz);
    NearFold(now, t.Left(now) * NS / t.hz);
  }

  lemma NearFold(now: nat, d: nat)
    ensures 0 < d < U64 && now < U64 ==> (now < (now + d % U64) % U64 <==> now + d < U64)
  {
  }

  lemma TimerDueNearWrap(t: Tim, now: nat)
    requires t.Running() && t.InPeriod(now) && t.epoch <= now && now - t.epoch < U64 / 2
    ensures t.Count(t.Due(now)) ==
            if (now - t.epoch) * t.hz % NS >= t.Left(now) * NS % t.hz then 0 else t.reload
  {
    var e, left := now - t.epoch, t.Left(now);
    LeftIs(t, now);
    CountSince(t, now, e);
    UpdateNearWrap(t.base, t.reload, e, t.hz, left);
    DueSince(t, now);
    CountSince(t, t.Due(now), e + left * NS / t.hz);
  }

  lemma CountSince(t: Tim, at: nat, e: nat)
    requires t.epoch <= at && at - t.epoch == e
    ensures t.Count(at) == CountAfter(t.base, t.reload, e * t.hz / NS)
  {
  }

  lemma DueSince(t: Tim, now: nat)
    requires t.hz > 0 && t.epoch <= now
    ensures t.epoch <= t.Due(now) && t.Due(now) - t.epoch == now - t.epoch + t.Left(now) * NS / t.hz
  {
  }

  lemma ShownIsCount(t: Tim, now: nat)
    requires t.Running() && t.epoch <= now && now - t.epoch < U64 / 4 * 3
    ensures now > t.epoch || t.base <= t.reload ==> t.Shown(now) == t.Count(now)
    ensures t.Count(now) <= t.reload && (now == t.epoch ==> t.Shown(now) == t.base)
  {
    var e := now - t.epoch;
    TicksFit(e, t.hz);
    Below64(t.base + Ticks(e, t.hz));
    Below16(t.Count(now));
    Below16(t.base);
    if e == 0 && t.base <= t.reload {
      assert e * t.hz / NS == 0;
      DivisionIs(t.base, t.reload + 1, 0, t.base);
    }
  }

  lemma LeftIs(t: Tim, now: nat)
    requires t.Running() && t.InPeriod(now) && t.epoch <= now && now - t.epoch < U64 / 2
    ensures t.Left(now) == t.reload + 1 - t.Count(now)
  {
    ShownIsCount(t, now);
    if now > t.epoch || t.base <= t.reload {
      Below32(t.reload + 1 - t.Count(now));
    } else {
      assert (now - t.epoch) * t.hz / NS == 0;
      DivisionIs(t.base, t.reload + 1, 1, 0);
    }
  }

  // The ticks left are between one and a whole period, unless the count was just set more
  // than one past the reload value: then the 32-bit difference wraps and the update is
  // minutes or hours away.
  lemma LeftInPeriod(t: Tim, now: nat)
    requires t.base < 0x1_0000 && t.reload < 0x1_0000 && t.hz > 0
    ensures 1 <= t.Left(now) <= t.reload + 1 <==> t.InPeriod(now)
  {
    Below16(t.base);
    if now > t.epoch {
      var c := (t.base + Ticks(now - t.epoch, t.hz)) % U64 % (t.reload + 1);
      Below16(c);
      Below32(t.reload + 1 - c);
    } else if t.base > t.reload + 1 {
      Wrapped32(t.base - (t.reload + 1));
    } else {
      Below32(t.reload + 1 - t.base);
    }
  }

  // A count of 10 written to a timer whose reload value is 5 leaves 2^32 - 4 ticks to go.
  lemma SetPastReload()
    ensures var t := Tim(10, 0, 5, 1_000_000);
            t.Running() && !t.InPeriod(0) && t.Left(0) == 0xFFFF_FFFC
  {
    Wrapped32(4);
  }

  lemma Wrapped32(k: nat)
    requires 0 < k < 0x1_0000
    ensures (0 - k) % 0x1_0000_0000 == 0x1_0000_0000 - k
  {
  }

  lemma DelayBound(t: nat, hz: nat)
    requires t <= 0x1_0000 && hz > 0
    ensures t * NS / hz < U64 / 4
  {
  }

  lemma Below16(x: nat)
    ensures x < 0x1_0000 ==> x % 0x1_0000 == x
  {
  }

  lemma Below32(x: nat)
    ensures x < 0x1_0000_0000 ==> x % 0x1_0000_0000 == x
  {
  }

  // When the timer is armed at now, with count cnt, it fires when the count has wrapped to
  // 0 or is still at its reload value, one tick short.
  lemma UpdateNearWrap(base: nat, reload: nat, e: nat, hz: nat, left: nat)
    requires 0 < hz <= HZ_MAX && left == reload + 1 - CountAfter(base, reload, e * hz / NS)
    ensures CountAfter(base, reload, (e + left * NS / hz) * hz / NS) ==
            if e * hz % NS >= left * NS % hz then 0 else reload
  {
    RoundedWait(e, hz, left);
    CountWraps(base, reload, e * hz / NS, left);
  }

  lemma CountWraps(base: nat, reload: nat, ticks: nat, left: nat)
    requires left == reload + 1 - CountAfter(base, reload, ticks)
    ensures CountAfter(base, reload, ticks + left) == 0
    ensures CountAfter(base, reload, ticks + left - 1) == reload
  {
    var m := reload + 1;
    var q := (base + ticks) / m;
    assert (q + 1) * m == q * m + m;
    DivisionIs(base + ticks + left, m, q + 1, 0);
    DivisionIs(base + ticks + left - 1, m, q, reload);
  }
}
