// SysTick and the general timers as the machine runs them: registers, epochs and one
// armed host timer each.  The virtual clock is an argument.
module Timers {
  import opened Counting
  import opened Rcc
  import opened VirtualTime

  datatype Alarm = Off | At(ns: nat)

  class SysTick {
    var ste: bool           // CTLR bits 0, 1 and 2
    var stie: bool
    var stclk: bool
    var cntif: bool         // SR bit 0
    var cmp: nat
    var cnt: nat            // count at the epoch
    var epoch: nat
    var mtip: bool
    var timer: Alarm

    function Value(c: Rcc): Stk
      reads this
    {
      Stk(cnt, epoch, StkHz(c, stclk), cmp)
    }

    // ch32_stk_now_cnt: the whole ticks since the epoch on top of the count there, modulo
    // 2^64, although the product is cut on the way.
    method NowCnt(c: Rcc, now: nat) returns (count: nat)
      ensures count == Value(c).Shown(now)
      ensures cmp > 0 && 0 < StkHz(c, stclk) <= HZ_MAX && epoch <= now && now - epoch < U64 ==>
                count == (cnt + (now - epoch) * StkHz(c, stclk) / NS) % U64
    {
      if cmp > 0 && 0 < StkHz(c, stclk) <= HZ_MAX && epoch <= now && now - epoch < U64 {
        FitsIn64(Value(c), now);
      }
      var hz := StkHz(c, stclk);
      if hz == 0 || now < epoch { return cnt; }
      count := (cnt + MulDiv(now - epoch, hz, NS)) % U64;
    }

    // ch32_stk_schedule: armed for the next wrap, or off with MTIP withdrawn.
    method Schedule(c: Rcc, now: nat)
      requires epoch <= now
      modifies `timer, `mtip
      ensures if ste && cmp != 0 && StkHz(c, stclk) != 0 then timer == At(Value(c).Armed(now)) && mtip == old(mtip)
              else timer == Off && !mtip
    {
      var hz := StkHz(c, stclk);
      if !(ste && cmp != 0 && hz != 0) {
        timer, mtip := Off, false;
        return;
      }
      var count := (cnt + MulDiv(now - epoch, hz, NS)) % U64;
      var m := count % cmp;
      var ticks := if m == 0 then cmp else cmp - m;
      timer := At((now + MulDiv(ticks, NS, hz)) % U64);
    }

    // ch32_stk_tick, the timer callback.
    method Tick(c: Rcc, now: nat, enabled: bool)
      requires epoch <= now
      modifies `timer, `mtip, `cntif
      ensures if ste && cmp != 0 && StkHz(c, stclk) != 0 then
                timer == At(Value(c).Armed(now)) && cntif && mtip == (old(mtip) || (stie && enabled))
              else timer == Off && !mtip && cntif == old(cntif)
    {
      if ste && cmp != 0 && StkHz(c, stclk) != 0 {
        cntif := true;
        if stie && enabled { mtip := true; }
      }
      Schedule(c, now);
    }

    // ch32_stk_rcc_clock_changed, and any other re-anchoring at the count shown.
    method Reanchor(c: Rcc, now: nat)
      requires epoch <= now
      modifies `cnt, `epoch, `timer, `mtip
      ensures epoch == now && cnt == old(Value(c).Shown(now))
      ensures if ste && cmp != 0 && StkHz(c, stclk) != 0 then timer == At(Value(c).Armed(now)) && mtip == old(mtip)
              else timer == Off && !mtip
    {
      cnt := NowCnt(c, now);
      epoch := now;
      Schedule(c, now);
    }
  }

  class Timer {
    var cen: bool           // CTLR1 bits
    var udis: bool
    var opm: bool
    var arpe: bool
    var psc: nat
    var atrlr: nat
    var preload: nat
    var base: nat           // count at the epoch
    var epoch: nat
    var uif: bool
    var timer: Alarm

    function Value(c: Rcc): Tim
      reads this
    {
      Tim(base, epoch, if atrlr == 0 then 0xFFFF else atrlr, TimHz(c, psc))
    }

    // ch32_tim_cnt_now_at: what a counter stepped once per tick would show.
    method CntNowAt(c: Rcc, now: nat) returns (count: nat)
      ensures count == if cen then Value(c).Shown(now) else base % 0x1_0000
      ensures var reload := if atrlr == 0 then 0xFFFF else atrlr;
              cen && 0 < TimHz(c, psc) <= HZ_MAX && base <= reload < 0x1_0000 &&
              epoch <= now && now - epoch < U64 / 2 ==>
                count == Stepped(base, reload, (now - epoch) * TimHz(c, psc) / NS)
    {
      ghost var t := Value(c);
      if t.Running() && t.base <= t.reload && epoch <= now && now - epoch < U64 / 2 {
        TimerShowsSteps(t, now);
      }
      if !cen { return base % 0x1_0000; }
      var hz := TimHz(c, psc);
      if hz == 0 || now <= epoch { return base % 0x1_0000; }
      var ticks := MulDiv(now - epoch, hz, NS);
      var reload := if atrlr == 0 then 0xFFFF else atrlr;
      count := (base + ticks) % U64 % (reload + 1) % 0x1_0000;
    }

    // ch32_tim_schedule
    method Schedule(c: Rcc, now: nat)
      modifies `timer
      ensures timer == if cen && TimHz(c, psc) != 0 then At(Value(c).Armed(now)) else Off
    {
      var hz := TimHz(c, psc);
      if !cen || hz == 0 {
        timer := Off;
        return;
      }
      var reload := if atrlr == 0 then 0xFFFF else atrlr;
      var count := CntNowAt(c, now);
      var left := (reload + 1 - count) % 0x1_0000_0000;
      if left == 0 { left := reload + 1; }
      timer := At((now + MulDiv(left, NS, hz)) % U64);
    }

    // A write of CNT.
    method WriteCnt(c: Rcc, now: nat, v: nat)
      requires v < 0x1_0000
      modifies `base, `epoch, `timer
      ensures base == v && epoch == now && Value(c).Shown(now) == v
      ensures timer == if cen && TimHz(c, psc) != 0 then At(Value(c).Armed(now)) else Off
    {
      base, epoch := v, now;
      Schedule(c, now);
    }

    // ch32_tim_tick: the count starts over from 0 at this instant, with the preloaded
    // reload value if that is buffered; a one-shot timer stops instead.  update says
    // whether the interrupt request is re-evaluated.
    method Tick(c: Rcc, now: nat) returns (update: bool)
      modifies `cen, `atrlr, `base, `epoch, `uif, `timer
      ensures update <==> old(cen) && !udis
      ensures uif == (old(uif) || update)
      ensures if old(cen) then base == 0 && epoch == now else base == old(base) && epoch == old(epoch)
      ensures cen == (old(cen) && !opm)
      ensures atrlr == if cen && arpe then preload else old(atrlr)
      ensures timer == if !cen then old(timer)
                       else if TimHz(c, psc) == 0 then Off else At(Value(c).Armed(now))
    {
      if !cen { return false; }
      base, epoch := 0, now;
      update := !udis;
      if update { uif := true; }
      if opm {
        cen := false;
        return;
      }
      if arpe { atrlr := preload; }
      Schedule(c, now);
    }

    // ch32_tim_rcc_clock_changed for one timer.
    method Reanchor(c: Rcc, now: nat)
      modifies `base, `epoch, `timer
      ensures !cen ==> base == old(base) && epoch == old(epoch) && timer == old(timer)
      ensures cen ==> base == old(Value(c).Shown(now)) && epoch == now && Value(c).Shown(now) == base
      ensures cen ==> timer == if TimHz(c, psc) == 0 then Off else At(Value(c).Armed(now))
    {
      if !cen { return; }
      var count := CntNowAt(c, now);
      base, epoch := count, now;
      Schedule(c, now);
    }
  }
}
