// What the arbitration promises its clients and the registers: who goes first, that requests
// are taken up and withdrawn ones forgotten, and what each register write is good for.
module PficClients {
  import opened PficDelivery
  import opened PficModel
  import opened PficRuns
  import opened PficService
  import opened PficSoftware
  import opened PficTheorems

  // ----- Who goes first ----------------------------------------------------------------

  // The clients by priority: USART1, the light USARTs, the timers, the 10M ETH, the DWMAC, the
  // USB hosts, the DMA channels.
  const PRIORITY: seq<Irq> :=
    [53] + [54, 55, 68, 69, 87, 88, 89] + [44, 45, 46, 66, 70, 71] + [61] + [77] + [85] + [83] + DMA_CHANNELS

  const DMA_CHANNELS: seq<Irq> :=
    [27, 28, 29, 30, 31, 32, 33] + [72, 73, 74, 75, 76, 98, 99] + [100, 101, 102, 103]

  // One entry of the table at a time.
  lemma FirstFrom(s: Pfic, k: nat)
    requires k < |TABLE|
    ensures First(s, Order(TABLE[k..])) ==
            if First(s, Members(TABLE[k].who)) != FREE then First(s, Members(TABLE[k].who))
            else First(s, Order(TABLE[k + 1..]))
  {
    assert TABLE[k..][0] == TABLE[k] && TABLE[k..][1..] == TABLE[k + 1..];
    FirstConcat(s, Members(TABLE[k].who), Order(TABLE[k + 1..]));
  }

  // The first of a sequence of groups.
  lemma FirstOfPriority(s: Pfic)
    ensures First(s, PRIORITY) ==
            if First(s, [53]) != FREE then First(s, [53])
            else if First(s, LITE_IRQS) != FREE then First(s, LITE_IRQS)
            else if First(s, TIM_IRQS) != FREE then First(s, TIM_IRQS)
            else if First(s, [61]) != FREE then First(s, [61])
            else if First(s, [77]) != FREE then First(s, [77])
            else if First(s, [85]) != FREE then First(s, [85])
            else if First(s, [83]) != FREE then First(s, [83])
            else First(s, DMA_IRQS)
  {
    var a := [53] + LITE_IRQS;
    FirstConcat(s, [53], LITE_IRQS);
    FirstConcat(s, a, TIM_IRQS);
    FirstConcat(s, a + TIM_IRQS, [61]);
    FirstConcat(s, a + TIM_IRQS + [61], [77]);
    FirstConcat(s, a + TIM_IRQS + [61] + [77], [85]);
    FirstConcat(s, a + TIM_IRQS + [61] + [77] + [85], [83]);
    FirstConcat(s, a + TIM_IRQS + [61] + [77] + [85] + [83], DMA_IRQS);
  }

  function Or(first: Irq, second: Irq): Irq {
    if first != FREE then first else second
  }

  // The table with its repetitions amounts to this list.
  lemma TableIsPriority(s: Pfic)
    ensures First(s, Order(TABLE)) == First(s, PRIORITY)
  {
    FirstOfPriority(s);
    EntriesFrom0(s);
    EntriesFrom3(s);
    EntriesFrom5(s);
    EntriesFrom7(s);
    EntriesFrom9(s);
    EntriesFrom11(s);
  }

  lemma EntriesFrom0(s: Pfic)
    ensures First(s, Order(TABLE)) == Or(First(s, [53]), First(s, Order(TABLE[3..])))
  {
    assert TABLE[0..] == TABLE;
    FirstFrom(s, 0);
    FirstFrom(s, 1);
    FirstFrom(s, 2);
  }

  lemma EntriesFrom3(s: Pfic)
    ensures First(s, Order(TABLE[3..])) == Or(First(s, LITE_IRQS), Or(First(s, TIM_IRQS), First(s, Order(TABLE[5..]))))
  {
    FirstFrom(s, 3);
    FirstFrom(s, 4);
  }

  lemma EntriesFrom5(s: Pfic)
    ensures First(s, Order(TABLE[5..])) == Or(First(s, [61]), Or(First(s, LITE_IRQS), First(s, Order(TABLE[7..]))))
  {
    FirstFrom(s, 5);
    FirstFrom(s, 6);
  }

  lemma EntriesFrom7(s: Pfic)
    ensures First(s, Order(TABLE[7..])) == Or(First(s, [77]), Or(First(s, TIM_IRQS), First(s, Order(TABLE[9..]))))
  {
    FirstFrom(s, 7);
    FirstFrom(s, 8);
  }

  lemma EntriesFrom9(s: Pfic)
    ensures First(s, Order(TABLE[9..])) == Or(First(s, [85]), Or(First(s, [83]), First(s, Order(TABLE[11..]))))
  {
    FirstFrom(s, 9);
    FirstFrom(s, 10);
  }

  lemma EntriesFrom11(s: Pfic)
    ensures First(s, Order(TABLE[11..])) == First(s, DMA_IRQS)
  {
    FirstFrom(s, 11);
    FirstFrom(s, 12);
    FirstFrom(s, 13);
    FirstFrom(s, 14);
    assert TABLE[15..] == [] && Order(TABLE[15..]) == [];
  }

  // At a trap return the slot goes to the first of the list that would take it.
  lemma Precedence(s: Pfic, i: nat)
    requires s.slot != FREE && i < |PRIORITY| && Eligible(s, PRIORITY[i])
    requires forall j :: 0 <= j < i ==> !Eligible(s, PRIORITY[j])
    ensures MretSpec(s).slot == PRIORITY[i] && MretSpec(s).meip
  {
    TableIsPriority(s);
    FreedFirst(s);
    var k := FirstIsFirst(s, PRIORITY);
    assert k == i;
  }

  // The software scan skips exactly what the table names.
  lemma CoveredIsMasked(n: Irq)
    ensures Covered(n) <==> exists k :: 0 <= k < |TABLE| && n in TABLE[k].mask
  {
    if Covered(n) {
      var k := if n == SOFTWARE_IRQ then 0 else if n == SYSTICK_IRQ then 1 else EntryOf(n);
      assert n in TABLE[k].mask;
    }
  }

  // ----- Requests ----------------------------------------------------------------------

  // A visit to an eligible client gives it a free slot, and the owner its MEIP back.
  lemma RequestClaims(s: Pfic, n: Irq)
    requires Eligible(s, n) && (s.slot == FREE || (s.slot == n && KindOf(n) != Dma))
    ensures var t := Visit(s, n);
            t.slot == n && t.meip && (KindOf(n) != Dma ==> n in t.iactr) && (Guarded(n) ==> n in t.active)
  {
  }

  // The 10M ETH goes on being injected when it is visited as the owner outside every handler.
  lemma OwnerInjectedAgain(s: Pfic, n: Irq)
    requires KindOf(n) == Relatch && Present(s, n) && Wants(s, n) && s.slot == n && s.inIsr == 0
    ensures var t := Visit(s, n);
            t.slot == n && t.meip && n in t.iactr && n in t.active
  {
  }

  // A visit to a timer or ETH block that does not request clears its latch, so that its next
  // request counts.
  lemma WithdrawalRearms(s: Pfic, n: Irq)
    requires Guarded(n) && Present(s, n) && !Wants(s, n)
    ensures n !in Visit(s, n).active && Visit(s, n).slot != n
  {
    FirstWants(Release(s), Order(TABLE));
  }

  // ----- Register writes ---------------------------------------------------------------

  // Enabling what is enabled, and disabling what is not, changes nothing.
  lemma RewriteChangesNothing(s: Pfic, bits: set<Irq>)
    ensures bits <= s.ienr ==> EnableWriteSpec(s, bits) == s
    ensures bits * s.ienr == {} ==> DisableWriteSpec(s, bits) == s
  {
    NothingChanged(TABLE);
    if bits <= s.ienr {
      assert bits - s.ienr == {} && s.ienr + bits == s.ienr;
    }
    if bits * s.ienr == {} {
      forall n | n in s.ienr ensures n !in bits {
        assert n in bits <==> n in bits * s.ienr;
      }
      assert s.ienr - bits == s.ienr;
    }
  }

  lemma {:induction false} NothingChanged(t: seq<Entry>)
    ensures Changed(t, {}) == []
  {
    if t != [] { NothingChanged(t[1..]); }
  }

  // Disabling the owner's interrupt makes it give up the slot, unless it is a DMA channel, an
  // interrupt without a client, or a USART inside a handler.
  lemma DisableReleases(s: Pfic, bits: set<Irq>)
    requires s.slot in bits && s.slot in s.ienr && Present(s, s.slot)
    requires KindOf(s.slot) != NoClient && KindOf(s.slot) != Dma
    ensures KindOf(s.slot) == Level && s.inIsr > 0 <==> DisableWriteSpec(s, bits).slot == s.slot
    ensures s.slot !in DisableWriteSpec(s, bits).ienr
  {
    var n, t, changed := s.slot, s.(ienr := s.ienr - bits), bits * s.ienr;
    var order := Order(Changed(TABLE, changed));
    EntryVisits(n);
    ChangedVisits(TABLE, changed, EntryOf(n), n);
    VisitsKeepLatchRule(t, order);
    if KindOf(n) == Level && s.inIsr > 0 {
      KeptVisits(t, order);
    } else {
      UnwantedVisits(t, order, n);
    }
  }

  // A client that does not request is not the owner once it has been visited.
  lemma {:induction false} UnwantedVisits(s: Pfic, order: seq<Irq>, n: Irq)
    requires n in order && GivesUp(s, n)
    ensures Visits(s, order).slot != n
  {
    var front, m := order[..|order| - 1], order[|order| - 1];
    var t := Visits(s, front);
    VisitsKeepLatchRule(s, front);
    assert order == front + [m];
    FirstWants(Release(t), Order(TABLE));
    if n in front {
      UnwantedVisits(s, front, n);
      UnwantedVisit(t, n, m);
    }
  }

  // A pending-set write gives a free slot to the lowest interrupt that it names, enabled and
  // not the software interrupt, and leaves all others that it names pending.
  lemma PendHandsOver(s: Pfic, bits: set<Irq>, n: Irq)
    requires s.slot == FREE && n in bits && n in s.ienr && n != SOFTWARE_IRQ
    requires forall m :: m in bits && m in s.ienr && m != SOFTWARE_IRQ ==> n <= m
    ensures PendWriteSpec(s, bits) ==
            s.(slot := n, meip := true, iactr := s.iactr + {n}, ipr := s.ipr + bits - {n})
  {
    assert n in (s.ienr * bits) - {SOFTWARE_IRQ};
  }

  // If it names none, or the slot is taken, it only sets the pending bits.
  lemma PendOnly(s: Pfic, bits: set<Irq>)
    requires s.slot != FREE || forall m :: m in bits && m in s.ienr ==> m == SOFTWARE_IRQ
    ensures PendWriteSpec(s, bits) == s.(ipr := s.ipr + bits)
  {
    if s.slot == FREE { assert (s.ienr * bits) - {SOFTWARE_IRQ} == {}; }
  }

  // On a free slot the pump's completion is that of any other DMA transfer: with its interrupt
  // enabled the channel owns the slot, and MEIP is up.
  lemma PumpFires(s: Pfic, ch: Irq)
    requires s.slot == FREE
    ensures PumpDoneSpec(s, ch) == Fire(s, ch)
    ensures ch in s.ienr ==> PumpDoneSpec(s, ch).slot == ch && PumpDoneSpec(s, ch).meip
  {
  }

  // After a machine reset nobody requests or waits, the slot is free, and the next request of
  // every timer and ETH block of the board counts.
  lemma ResetForgets(s: Pfic)
    ensures var t := Step(s, MachineReset);
            && t.slot == FREE && t.inIsr == 0 && t.iactr == {} && t.ienr == {2, 3}
            && NoneEligible(t) && SoftwareCandidates(t) == {}
            && forall n :: Guarded(n) && Present(t, n) ==> n !in t.active
  {
    NobodyEligible(Step(s, MachineReset));
  }
}
