// The clock tree: what the CFGR0 register makes of the two oscillators.
module Rcc {
  import opened Arithmetic

  datatype Rcc = Rcc(cfgr0: nat, hsi: nat, hse: nat)

  const HPRE_DIV: seq<nat> := [1, 1, 1, 1, 1, 1, 1, 1, 2, 4, 8, 16, 64, 128, 256, 512]
  const PPRE_DIV: seq<nat> := [1, 1, 1, 1, 2, 4, 8, 16]

  // No board has a faster oscillator.
  const OSC_MAX: nat := 24_000_000
  const HZ_MAX: nat := 384_000_000

  function PllMul(field: nat): nat {
    if field <= 14 then field + 2 else 16
  }

  // ch32_rcc_calc_sysclk, in 32-bit arithmetic
  function Sysclk(c: Rcc): nat {
    var sw := c.cfgr0 % 4;
    if sw == 1 then c.hse
    else if sw == 2 then
      var input := if c.cfgr0 / 0x1_0000 % 2 == 1 then c.hse else c.hsi / 2;
      input * PllMul(c.cfgr0 / 0x4_0000 % 16) % 0x1_0000_0000
    else c.hsi
  }

  function Hclk(c: Rcc): nat {
    Sysclk(c) / HPRE_DIV[c.cfgr0 / 0x10 % 16]
  }

  function Pclk1(c: Rcc): nat {
    Hclk(c) / PPRE_DIV[c.cfgr0 / 0x100 % 8]
  }

  // ch32_stk_hz: HCLK or an eighth of it
  function StkHz(c: Rcc, stclk: bool): nat {
    if stclk then Hclk(c) else Hclk(c) / 8
  }

  // ch32_tim_cnt_hz: the bus clock, doubled when it is divided, through the prescaler
  function TimHz(c: Rcc, psc: nat): nat {
    (if Pclk1(c) == Hclk(c) then Pclk1(c) else Pclk1(c) * 2) / (psc + 1)
  }

  lemma Divided(x: nat, d: nat)
    requires d >= 1
    ensures x / d <= x && (d >= 2 ==> 2 * (x / d) <= x)
  {
  }

  // Every register value on every board keeps all counting clocks at or below 384 MHz, which
  // a PLL at 16 times a 24 MHz crystal without dividers does reach.
  lemma ClockBound(c: Rcc, stclk: bool, psc: nat)
    requires c.hsi <= OSC_MAX && c.hse <= OSC_MAX
    ensures Sysclk(c) <= HZ_MAX && Hclk(c) <= HZ_MAX
    ensures StkHz(c, stclk) <= HZ_MAX && TimHz(c, psc) <= HZ_MAX
  {
    PllBound(c.hse, c.cfgr0 / 0x4_0000 % 16);
    PllBound(c.hsi / 2, c.cfgr0 / 0x4_0000 % 16);
    Divided(Sysclk(c), HPRE_DIV[c.cfgr0 / 0x10 % 16]);
    Divided(Hclk(c), PPRE_DIV[c.cfgr0 / 0x100 % 8]);
    Divided(if Pclk1(c) == Hclk(c) then Pclk1(c) else Pclk1(c) * 2, psc + 1);
  }

  lemma PllBound(input: nat, field: nat)
    requires input <= OSC_MAX && field < 16
    ensures input * PllMul(field) % 0x1_0000_0000 <= HZ_MAX
  {
    assert input * PllMul(field) <= OSC_MAX * 16;
  }

  // With the APB1 divider at 1 the timers count at the rate of HCLK; at 2 they do exactly when
  // the halved and doubled clock, one hertz short if HCLK is odd, makes no difference behind
  // the prescaler.
  lemma TimerClock(c: Rcc, psc: nat)
    requires c.cfgr0 / 0x100 % 8 <= 4
    ensures TimHz(c, psc) == Hclk(c) / (psc + 1) <==>
            c.cfgr0 / 0x100 % 8 < 4 || Hclk(c) % 2 == 0 || Hclk(c) % (psc + 1) != 0
  {
    if c.cfgr0 / 0x100 % 8 == 4 && Hclk(c) % 2 == 1 { OneShort(Hclk(c), psc + 1); }
  }

  lemma OneShort(x: nat, d: nat)
    requires x > 0 && d > 0
    ensures (x - 1) / d == x / d <==> x % d != 0
  {
    var q, r := x / d, x % d;
    if r > 0 {
      DivisionIs(x - 1, d, q, r - 1);
    } else {
      assert (q - 1) * d == q * d - d;
      DivisionIs(x - 1, d, q - 1, d - 1);
    }
  }

  // ----- Clocks on request -------------------------------------------------------------

  function Pow2(n: nat): (r: nat)
    ensures r >= 1
  {
    if n == 0 then 1 else 2 * Pow2(n - 1)
  }

  // The register value for a wanted tree: clock source 0 (HSI), 1 (HSE) or 2 (PLL), the PLL fed
  // by HSE or by half of HSI and multiplied by mul, HCLK divided by 2^ahb, APB1 by 2^apb.
  function ClockWord(source: nat, fromHse: bool, mul: nat, ahb: nat, apb: nat): nat
    requires source < 3 && 2 <= mul <= 16 && ahb < 10 && ahb != 5 && apb < 5
  {
    source + 0x10 * AhbField(ahb) + 0x100 * (if apb == 0 then 0 else apb + 3) +
    0x1_0000 * (if fromHse then 1 else 0) + 0x4_0000 * (mul - 2)
  }

  // A division by 32 is not to be had.
  function AhbField(ahb: nat): (f: nat)
    requires ahb < 10 && ahb != 5
    ensures f < 16
  {
    if ahb == 0 then 0 else if ahb < 5 then ahb + 7 else ahb + 6
  }

  lemma ClockFields(sw: nat, ahb: nat, apb: nat, src: nat, mul: nat)
    requires sw < 4 && ahb < 16 && apb < 8 && src < 2 && mul < 16
    ensures var w := sw + 0x10 * ahb + 0x100 * apb + 0x1_0000 * src + 0x4_0000 * mul;
            && w % 4 == sw && w / 0x10 % 16 == ahb && w / 0x100 % 8 == apb
            && w / 0x1_0000 % 2 == src && w / 0x4_0000 % 16 == mul
  {
    var w := sw + 0x10 * ahb + 0x100 * apb + 0x1_0000 * src + 0x4_0000 * mul;
    DivisionIs(w, 4, 4 * ahb + 0x40 * apb + 0x4000 * src + 0x1_0000 * mul, sw);
    DivisionIs(w, 0x10, ahb + 16 * (apb + 0x100 * src + 0x400 * mul), sw);
    DivisionIs(ahb + 16 * (apb + 0x100 * src + 0x400 * mul), 16, apb + 0x100 * src + 0x400 * mul, ahb);
    DivisionIs(w, 0x100, apb + 8 * (0x20 * src + 0x80 * mul), sw + 0x10 * ahb);
    DivisionIs(apb + 8 * (0x20 * src + 0x80 * mul), 8, 0x20 * src + 0x80 * mul, apb);
    DivisionIs(w, 0x1_0000, src + 2 * (2 * mul), sw + 0x10 * ahb + 0x100 * apb);
    DivisionIs(src + 2 * (2 * mul), 2, 2 * mul, src);
    DivisionIs(w, 0x4_0000, mul, sw + 0x10 * ahb + 0x100 * apb + 0x1_0000 * src);
    DivisionIs(mul, 16, 0, mul);
  }

  lemma Dividers(ahb: nat, apb: nat)
    requires ahb < 10 && ahb != 5 && apb < 5
    ensures HPRE_DIV[AhbField(ahb)] == Pow2(ahb)
    ensures PPRE_DIV[if apb == 0 then 0 else apb + 3] == Pow2(apb)
  {
    assert Pow2(1) == 2 && Pow2(2) == 4 && Pow2(3) == 8 && Pow2(4) == 16;
    assert Pow2(6) == 64 by { assert Pow2(5) == 32; }
    assert Pow2(7) == 128 && Pow2(8) == 256 && Pow2(9) == 512;
  }

  // What is wanted of the core clock.
  function Wanted(source: nat, fromHse: bool, mul: nat, hsi: nat, hse: nat): nat {
    if source == 0 then hsi
    else if source == 1 then hse
    else (if fromHse then hse else hsi / 2) * mul
  }

  lemma PllWanted(input: nat, mul: nat)
    requires input <= OSC_MAX && 2 <= mul <= 16
    ensures input * PllMul(mul - 2) % 0x1_0000_0000 == input * mul
  {
    assert input * mul <= OSC_MAX * 16;
    Small(input * mul);
  }

  lemma SysclkOf(c: Rcc, source: nat, fromHse: bool, mul: nat)
    requires source < 3 && 2 <= mul <= 16 && c.hsi <= OSC_MAX && c.hse <= OSC_MAX
    requires c.cfgr0 % 4 == source && (c.cfgr0 / 0x1_0000 % 2 == 1 <==> fromHse) && c.cfgr0 / 0x4_0000 % 16 == mul - 2
    ensures Sysclk(c) == Wanted(source, fromHse, mul, c.hsi, c.hse)
  {
    PllWanted(if fromHse then c.hse else c.hsi / 2, mul);
  }

  lemma SysclkRequested(source: nat, fromHse: bool, mul: nat, ahb: nat, apb: nat, hsi: nat, hse: nat)
    requires source < 3 && 2 <= mul <= 16 && ahb < 10 && ahb != 5 && apb < 5
    requires hsi <= OSC_MAX && hse <= OSC_MAX
    ensures var c := Rcc(ClockWord(source, fromHse, mul, ahb, apb), hsi, hse);
            && Sysclk(c) == Wanted(source, fromHse, mul, hsi, hse)
            && c.cfgr0 / 0x10 % 16 == AhbField(ahb)
            && c.cfgr0 / 0x100 % 8 == if apb == 0 then 0 else apb + 3
  {
    ClockFields(source, AhbField(ahb), if apb == 0 then 0 else apb + 3, if fromHse then 1 else 0, mul - 2);
    SysclkOf(Rcc(ClockWord(source, fromHse, mul, ahb, apb), hsi, hse), source, fromHse, mul);
  }

  lemma Small(x: nat)
    requires x < 0x1_0000_0000
    ensures x % 0x1_0000_0000 == x
  {
  }

  // Every wanted tree is what its register value gives: the clocks of the core, of the APB1 bus,
  // of SysTick and of the timers, doubled when APB1 is divided.
  lemma ClockRequested(source: nat, fromHse: bool, mul: nat, ahb: nat, apb: nat, hsi: nat, hse: nat, psc: nat)
    requires source < 3 && 2 <= mul <= 16 && ahb < 10 && ahb != 5 && apb < 5
    requires hsi <= OSC_MAX && hse <= OSC_MAX
    ensures var c := Rcc(ClockWord(source, fromHse, mul, ahb, apb), hsi, hse);
            var hclk := Wanted(source, fromHse, mul, hsi, hse) / Pow2(ahb);
            && Hclk(c) == hclk && Pclk1(c) == hclk / Pow2(apb)
            && StkHz(c, true) == hclk && StkHz(c, false) == hclk / 8
            && TimHz(c, psc) == (if apb == 0 then hclk else 2 * (hclk / Pow2(apb))) / (psc + 1)
  {
    BusesRequested(source, fromHse, mul, ahb, apb, hsi, hse);
    TimersDoubled(Rcc(ClockWord(source, fromHse, mul, ahb, apb), hsi, hse), apb, psc);
  }

  lemma BusesRequested(source: nat, fromHse: bool, mul: nat, ahb: nat, apb: nat, hsi: nat, hse: nat)
    requires source < 3 && 2 <= mul <= 16 && ahb < 10 && ahb != 5 && apb < 5
    requires hsi <= OSC_MAX && hse <= OSC_MAX
    ensures var c := Rcc(ClockWord(source, fromHse, mul, ahb, apb), hsi, hse);
            && Hclk(c) == Wanted(source, fromHse, mul, hsi, hse) / Pow2(ahb) && Pclk1(c) == Hclk(c) / Pow2(apb)
  {
    SysclkRequested(source, fromHse, mul, ahb, apb, hsi, hse);
    Dividers(ahb, apb);
  }

  lemma TimersDoubled(c: Rcc, apb: nat, psc: nat)
    requires Pclk1(c) == Hclk(c) / Pow2(apb)
    ensures TimHz(c, psc) == (if apb == 0 then Hclk(c) else 2 * (Hclk(c) / Pow2(apb))) / (psc + 1)
  {
    if apb > 0 && Pclk1(c) == Hclk(c) { UndividedIsNone(Hclk(c), Pow2(apb)); }
  }

  lemma UndividedIsNone(x: nat, d: nat)
    requires d >= 2 && x / d == x
    ensures x == 0
  {
    Divided(x, d);
  }
}
