// One DMA channel as the machine runs it.
module Dma {
  import opened Basics
  import opened DmaEngine
  import opened GuestMemory

  class Channel {
    var bus: Bus
    var cfgr: nat
    var cntr: nat
    var paddr: nat
    var maddr: nat
    var intfr: set<nat>     // bits of the controller's flag register that are set
    const local: nat        // channel number within the controller, from 1

    ghost predicate Valid()
      reads this
    {
      1 <= local <= 7 && paddr < WRAP && maddr < WRAP
    }

    method ReadBus(a: nat, size: nat) returns (ok: bool, v: nat)
      ensures ok <==> OnBus(bus, a, size)
      ensures v == LittleEndian(Fetch(bus, a, size))
    {
      ok := forall x :: a <= x < a + size ==> x in bus;
      v := LittleEndian(Fetch(bus, a, size));
    }

    method WriteBus(a: nat, v: nat, size: nat) returns (ok: bool)
      modifies `bus
      ensures ok <==> OnBus(old(bus), a, size)
      ensures bus == Store(old(bus), a, ToBytes(v, size))
    {
      ok := forall x :: a <= x < a + size ==> x in bus;
      bus := Store(bus, a, ToBytes(v, size));
    }

    // One element through the buffer of its source width.
    method MoveElement(src: nat, ssize: nat, dst: nat, dsize: nat) returns (ok: bool)
      requires IsSize(ssize) && IsSize(dsize)
      modifies `bus
      ensures ok <==> OnBus(old(bus), src, ssize) && OnBus(old(bus), dst, dsize)
      ensures bus == if OnBus(old(bus), src, ssize) then MoveOne(old(bus), src, ssize, dst, dsize) else old(bus)
    {
      var v;
      ok, v := ReadBus(src, ssize);
      if !ok { return; }
      ValueResizes(Fetch(bus, src, ssize), dsize);
      match ssize
      case 1 =>
        match dsize {
          case 1 => ok := WriteBus(dst, v, 1);
          case 2 => ok := WriteBus(dst, v, 2);
          case _ => ok := WriteBus(dst, v, 4);
        }
      case 2 =>
        match dsize {
          case 1 =>
            CastByte(v);
            ok := WriteBus(dst, v % 0x100, 1);
          case 2 => ok := WriteBus(dst, v, 2);
          case _ => ok := WriteBus(dst, v, 4);
        }
      case _ =>
        match dsize {
          case 1 =>
            CastByte(v);
            ok := WriteBus(dst, v % 0x100, 1);
          case 2 =>
            CastHalf(v);
            ok := WriteBus(dst, v % 0x1_0000, 2);
          case _ => ok := WriteBus(dst, v, 4);
        }
    }

    // The transfer loop over count elements.
    method MoveAll(c: Config, count: nat) returns (ok: bool)
      requires Valid() && c.Valid()
      modifies `bus
      ensures var src, dst := Source(c, paddr, maddr), Target(c, paddr, maddr);
              && (ok <==> Reach(old(bus), src, dst, 0, count) == count)
              && bus == Transferred(old(bus), src, dst, count)
    {
      var p, m, i := paddr, maddr, 0;
      ghost var src, dst := Source(c, paddr, maddr), Target(c, paddr, maddr);
      ghost var bus0 := bus;
      StartsAtBase(src);
      StartsAtBase(dst);
      while i < count
        invariant i <= count
        invariant if c.toPeriph then m == src.Addr(i) && p == dst.Addr(i) else p == src.Addr(i) && m == dst.Addr(i)
        invariant bus == Moved(bus0, src, dst, i)
        invariant Reach(bus0, src, dst, 0, count) == Reach(bus0, src, dst, i, count)
      {
        SameAnswers(bus0, bus, src, dst, i);
        if !c.toPeriph {
          ok := MoveElement(p, c.psize, m, c.msize);
        } else {
          ok := MoveElement(m, c.msize, p, c.psize);
        }
        if !ok { return; }
        NextAddr(src, i);
        NextAddr(dst, i);
        if c.pinc { p := (p + c.psize) % WRAP; }
        if c.minc { m := (m + c.msize) % WRAP; }
        i := i + 1;
      }
      ok := true;
    }

    // ch32_dma_exec; fire says whether ch32_dma_fire_irq is called.
    method Exec(irq: nat) returns (fire: bool)
      requires Valid()
      modifies this
      ensures var c := Decode(old(cfgr));
              var src, dst, n := Source(c, paddr, maddr), Target(c, paddr, maddr), old(cntr) % 0x1_0000;
              var whole := Reach(old(bus), src, dst, 0, n) == n;
              && bus == Transferred(old(bus), src, dst, n)
              && intfr == old(intfr) + {4 * local - 4, if whole then 4 * local - 3 else 4 * local - 1}
              && (fire <==> irq != 0 && Bit(old(cfgr), if whole then 2 else 8))
      ensures var c, n := Decode(old(cfgr)), old(cntr) % 0x1_0000;
              && (!c.toPeriph && Plain(old(bus), paddr, c.pinc, c.psize, maddr, c.minc, c.msize, n) ==>
                    Arrives(old(bus), bus, paddr, c.pinc, c.psize, maddr, c.minc, c.msize, n))
              && (c.toPeriph && Plain(old(bus), maddr, c.minc, c.msize, paddr, c.pinc, c.psize, n) ==>
                    Arrives(old(bus), bus, maddr, c.minc, c.msize, paddr, c.pinc, c.psize, n))
      ensures cntr == 0 && paddr == old(paddr) && maddr == old(maddr)
      ensures cfgr / 2 == old(cfgr) / 2 && cfgr % 2 == 0
    {
      var c := Decode(cfgr);
      var tcie, teie := Bit(cfgr, 2), Bit(cfgr, 8);
      TransferArrives(bus, c, paddr, maddr, cntr % 0x1_0000);
      var ok := MoveAll(c, cntr % 0x1_0000);
      cntr := 0;
      cfgr := cfgr - cfgr % 2;
      intfr := intfr + {(local - 1) * 4, (local - 1) * 4 + if ok then 1 else 3};
      fire := irq != 0 && if ok then tcie else teie;
    }
  }

  // In either direction.
  lemma TransferArrives(bus: Bus, c: Config, paddr: nat, maddr: nat, n: nat)
    requires c.Valid()
    ensures var r := Transferred(bus, Source(c, paddr, maddr), Target(c, paddr, maddr), n);
            && (!c.toPeriph && Plain(bus, paddr, c.pinc, c.psize, maddr, c.minc, c.msize, n) ==>
                  Arrives(bus, r, paddr, c.pinc, c.psize, maddr, c.minc, c.msize, n))
            && (c.toPeriph && Plain(bus, maddr, c.minc, c.msize, paddr, c.pinc, c.psize, n) ==>
                  Arrives(bus, r, maddr, c.minc, c.msize, paddr, c.pinc, c.psize, n))
  {
    if c.toPeriph {
      if Plain(bus, maddr, c.minc, c.msize, paddr, c.pinc, c.psize, n) { ToPeripheral(bus, c, paddr, maddr, n); }
    } else {
      if Plain(bus, paddr, c.pinc, c.psize, maddr, c.minc, c.msize, n) { ToMemory(bus, c, paddr, maddr, n); }
    }
  }

  lemma StartsAtBase(s: Span)
    requires s.base < WRAP
    ensures s.Addr(0) == s.base
  {
  }

  lemma NextAddr(s: Span, i: nat)
    ensures s.Addr(i + 1) == (s.Addr(i) + s.step) % WRAP
    ensures s.step == 0 ==> s.Addr(i + 1) == s.Addr(i)
  {
  }

  lemma SameAnswers(bus: Bus, moved: Bus, src: Span, dst: Span, i: nat)
    requires bus.Keys == moved.Keys
    ensures OnBus(moved, src.Addr(i), src.size) == OnBus(bus, src.Addr(i), src.size)
    ensures OnBus(moved, dst.Addr(i), dst.size) == OnBus(bus, dst.Addr(i), dst.size)
  {
  }
}
