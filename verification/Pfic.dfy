// The slot arbitration as the machine runs it: state updated in place, clients that
// withdraw calling back into the rescan that may have called them.
module PficMachine {
  import opened PficModel
  import opened PficTheorems

  // The owner no longer requests.  Every recursive entry into the rescan turns this off.
  predicate Stale(s: Pfic) {
    s.slot != FREE && Present(s, s.slot) && !Wants(s, s.slot) &&
    KindOf(s.slot) != NoClient && KindOf(s.slot) != Dma
  }

  lemma VisitKeepsFresh(s: Pfic, n: Irq)
    ensures Stale(Visit(s, n)) ==> Stale(s)
  {
    FirstWants(Release(s), Order(TABLE));
  }

  lemma {:induction false} VisitsKeepFresh(s: Pfic, order: seq<Irq>)
    ensures Stale(Visits(s, order)) ==> Stale(s)
  {
    if order != [] {
      var front := order[..|order| - 1];
      VisitsKeepFresh(s, front);
      VisitKeepsFresh(Visits(s, front), order[|order| - 1]);
    }
  }

  lemma VisitsSnoc(s: Pfic, order: seq<Irq>, i: nat)
    requires i < |order|
    ensures Visits(s, order[..i + 1]) == Visit(Visits(s, order[..i]), order[i])
  {
    assert order[..i + 1][..i] == order[..i];
  }

  lemma OrderSnoc(t: seq<Entry>, i: nat)
    requires i < |t|
    ensures Order(t[..i + 1]) == Order(t[..i]) + Members(t[i].who)
  {
    assert t[..i + 1] == t[..i] + [t[i]];
    OrderConcat(t[..i], [t[i]]);
    assert Order([t[i]]) == Members(t[i].who) + [];
  }

  lemma {:induction false} ChangedSnoc(t: seq<Entry>, bits: set<Irq>, e: Entry)
    ensures Changed(t + [e], bits) == Changed(t, bits) + if e.mask * bits != {} then [e] else []
  {
    if t == [] {
      assert t + [e] == [e];
    } else {
      ChangedSnoc(t[1..], bits, e);
      assert (t + [e])[1..] == t[1..] + [e];
    }
  }

  // With only the two fixed enables left nobody requests, and a scan of USARTs can only
  // lower MEIP and free the slot of its owner.
  ghost predicate Quieter(s: Pfic, t: Pfic) {
    && t == s.(slot := t.slot, meip := t.meip, active := t.active)
    && (t.slot == s.slot || t.slot == FREE)
    && Unguarded(t.active, t.present) == Unguarded(s.active, s.present)
  }

  lemma {:induction false} QuietVisits(s: Pfic, order: seq<Irq>)
    requires s.ienr == RESET_IENR && s.iactr == {} && s.ipr == {}
    requires forall n :: n in order ==> KindOf(n) == Level
    ensures var t := Visits(s, order);
            && Quieter(s, t)
            && t.meip == (s.meip && s.slot !in order)
            && (t.slot == s.slot || !t.meip)
  {
    if order != [] {
      var front, n := order[..|order| - 1], order[|order| - 1];
      assert forall x :: x in order <==> x in front || x == n;
      QuietVisits(s, front);
      QuietVisit(Visits(s, front), n);
    }
  }

  lemma QuietVisit(s: Pfic, n: Irq)
    requires s.ienr == RESET_IENR && s.iactr == {} && s.ipr == {} && KindOf(n) == Level
    ensures var t := Visit(s, n);
            && Quieter(s, t)
            && t.meip == (s.meip && s.slot != n)
            && (t.slot == s.slot || !t.meip)
  {
    var i := FirstIsFirst(Release(s), Order(TABLE));
    assert forall m :: !Eligible(Release(s), m);
    assert First(Release(s), Order(TABLE)) == FREE;
    assert WantingDma(Release(s)) == {};
  }

  lemma QuietLatch(s: Pfic, n: Irq)
    requires s.slot == FREE && s.ienr == RESET_IENR && Guarded(n) && Present(s, n) && n !in s.active
    ensures Visit(s, n) == s
  {
    assert s.active - {n} == s.active;
  }

  lemma LiteIrqs(n: Irq)
    ensures KindOf(n) == Level <==> n in LITE_IRQS || n == USART1_IRQ
  {
  }

  lemma TimIrqs(n: Irq)
    ensures KindOf(n) == Latched <==> n in TIM_IRQS || n == ETH_IRQ
  {
  }

  // The lowest of a set lies in its first word that is not empty.
  lemma FirstWord(candidates: set<Irq>, word: set<Irq>, wd: nat)
    requires forall n :: n in candidates ==> n / 32 >= wd
    requires forall n :: n in word <==> n in candidates && n / 32 == wd
    ensures if word == {} then forall n :: n in candidates ==> n / 32 >= wd + 1
            else candidates != {} && Lowest(candidates) == Lowest(word)
  {
    if word != {} {
      var least := Lowest(word);
      assert least in candidates;
      forall n | n in candidates ensures least <= n {
        assert n in word || n / 32 > wd;
      }
    } else {
      forall n | n in candidates ensures n / 32 >= wd + 1 {
        assert n !in word;
      }
    }
  }

  class Machine {
    var ienr: set<Irq>
    var ipr: set<Irq>
    var iactr: set<Irq>
    var slot: Irq
    var meip: bool
    var inIsr: nat
    var line: set<Irq>
    var host: set<Irq>
    var tcie: set<Irq>
    var tcif: set<Irq>
    var present: set<Irq>
    var active: set<Irq>
    ghost var claims: seq<Irq>

    ghost function State(): Pfic
      reads this
    {
      Pfic(ienr, ipr, iactr, slot, meip, inIsr, line, host, tcie, tcif, present, active, claims)
    }

    ghost function Rank(): nat
      reads this
    {
      if Stale(State()) then 1 else 0
    }

    // ----- Clients ---------------------------------------------------------------------

    // ch32_usart1_meip_resync, usart_lite_meip_one
    method UsartResync(n: Irq)
      requires KindOf(n) == Level
      modifies this
      ensures State() == Visit(old(State()), n)
      decreases Rank(), 0
    {
      var irq := n in ienr && n in line;
      if irq {
        if slot != FREE && slot != n { return; }
        slot := n;
        iactr := iactr + {n};
        meip := true;
      } else if slot == n {
        meip := false;
        if inIsr == 0 {
          slot := FREE;
          iactr := iactr - {n};
          RescanPending();
        }
      }
    }

    // ch32_tim_meip_update, ch32_eth_meip_resync
    method LatchedResync(n: Irq)
      requires KindOf(n) == Latched
      modifies this
      ensures State() == Visit(old(State()), n)
      decreases Rank(), 0
    {
      if n == ETH_IRQ && n !in present { return; }
      if n !in ienr || n !in line {
        if slot == n {
          meip := false;
          slot := FREE;
          iactr := iactr - {n};
          RescanPending();
        }
        active := active - {n};
        return;
      }
      if n in active { return; }
      if slot != FREE && slot != n { return; }
      slot := n;
      active := active + {n};
      claims := claims + [n];
      iactr := iactr + {n};
      meip := true;
    }

    // eth_10m_meip_withdraw
    method Eth10mWithdraw(resyncOthers: bool)
      requires resyncOthers ==> Present(State(), ETH10M_IRQ) && !Wants(State(), ETH10M_IRQ)
      modifies this
      ensures var s := old(State());
              var r := if s.slot != ETH10M_IRQ then s
                       else if resyncOthers then Handover(Release(s)) else Release(s);
              State() == r.(active := r.active - {ETH10M_IRQ})
      decreases if resyncOthers then Rank() else 0, 0
    {
      if slot == ETH10M_IRQ {
        meip := false;
        slot := FREE;
        iactr := iactr - {ETH10M_IRQ};
        if resyncOthers { RescanPending(); }
      }
      active := active - {ETH10M_IRQ};
    }

    // ch32_eth_10m_meip_resync
    method Eth10mResync()
      modifies this
      ensures State() == Visit(old(State()), ETH10M_IRQ)
      decreases Rank(), 1
    {
      var n := ETH10M_IRQ;
      if n !in present { return; }
      if n !in ienr || n !in line {
        Eth10mWithdraw(true);
        return;
      }
      if n in active {
        var isrDone := inIsr == 0 && slot == n;
        if !isrDone { return; }
        Eth10mWithdraw(false);
      }
      if slot != FREE && slot != n { return; }
      slot := n;
      active := active + {n};
      iactr := iactr + {n};
      meip := true;
    }

    // ch32_usbhost_meip_resync, ch32_usbfs_host_meip_resync
    method UsbHostResync(n: Irq)
      requires KindOf(n) == Usb
      modifies this
      ensures State() == Visit(old(State()), n)
      decreases Rank(), 0
    {
      if n !in present { return; }
      var lineOn := n in host && n in ienr;
      if !lineOn {
        if slot == n {
          meip := false;
          slot := FREE;
          iactr := iactr - {n};
        }
        return;
      }
      if n in line {
        if slot != FREE && slot != n { return; }
        slot := n;
        iactr := iactr + {n};
        meip := true;
      } else if slot == n {
        meip := false;
        slot := FREE;
        iactr := iactr - {n};
        RescanPending();
      }
    }

    // ch32_dma_fire_irq
    method DmaFireIrq(n: Irq)
      modifies this
      ensures State() == Fire(old(State()), n)
    {
      if n !in ienr { return; }
      if slot != FREE {
        ipr := ipr + {n};
        return;
      }
      slot := n;
      meip := true;
    }

    // ch32_dma_meip_resync, one controller's channels
    method DmaResync(channels: seq<Irq>)
      requires forall i :: 0 <= i < |channels| ==> KindOf(channels[i]) == Dma
      modifies this
      ensures State() == Visits(old(State()), channels)
    {
      for i := 0 to |channels|
        invariant State() == Visits(old(State()), channels[..i])
      {
        VisitsSnoc(old(State()), channels, i);
        if channels[i] in tcie && channels[i] in tcif {
          DmaFireIrq(channels[i]);
        }
      }
      assert channels[..|channels|] == channels;
    }

    // ----- The rescan ------------------------------------------------------------------

    // One table entry's callback.
    method ResyncClient(who: Client)
      modifies this
      ensures State() == Visits(old(State()), Members(who))
      decreases Rank(), 2
    {
      ghost var before := State();
      match who {
        case SwIrq =>
        case SysTick =>
        case Usart1 => UsartResync(USART1_IRQ);
        case Eth10m => Eth10mResync();
        case Eth => LatchedResync(ETH_IRQ);
        case UsbHs => UsbHostResync(USBHS_IRQ);
        case UsbFs => UsbHostResync(USBFS_IRQ);
        case UsartLite => UsartLiteResync();
        case TimAll => TimResyncAll();
        case DmaAll =>
          DmaResync(DMA1_IRQS);
          DmaResync(DMA2_IRQS);
          DmaResync(DMA2X_IRQS);
          VisitsConcat(before, DMA1_IRQS, DMA2_IRQS);
          VisitsConcat(before, DMA1_IRQS + DMA2_IRQS, DMA2X_IRQS);
      }
    }

    // ch32_usart_lite_meip_resync
    method UsartLiteResync()
      modifies this
      ensures State() == Visits(old(State()), LITE_IRQS)
      decreases Rank(), 1
    {
      for i := 0 to |LITE_IRQS|
        invariant State() == Visits(old(State()), LITE_IRQS[..i])
      {
        VisitsSnoc(old(State()), LITE_IRQS, i);
        VisitsKeepFresh(old(State()), LITE_IRQS[..i]);
        LiteIrqs(LITE_IRQS[i]);
        UsartResync(LITE_IRQS[i]);
      }
      assert LITE_IRQS[..|LITE_IRQS|] == LITE_IRQS;
    }

    // ch32_tim_meip_resync_all
    method TimResyncAll()
      modifies this
      ensures State() == Visits(old(State()), TIM_IRQS)
      decreases Rank(), 1
    {
      for i := 0 to |TIM_IRQS|
        invariant State() == Visits(old(State()), TIM_IRQS[..i])
      {
        VisitsSnoc(old(State()), TIM_IRQS, i);
        VisitsKeepFresh(old(State()), TIM_IRQS[..i]);
        TimIrqs(TIM_IRQS[i]);
        LatchedResync(TIM_IRQS[i]);
      }
      assert TIM_IRQS[..|TIM_IRQS|] == TIM_IRQS;
    }

    // ch32_pfic_resync_pending_meip.  Started on a free slot, as all its callers do, it
    // is the simple hand-over.
    method RescanPending()
      modifies this
      ensures State() == Visits(old(State()), Order(TABLE))
      ensures old(slot) == FREE ==> State() == Handover(old(State()))
      decreases Rank(), 3
    {
      ghost var before := State();
      for i := 0 to |TABLE|
        invariant State() == Visits(before, Order(TABLE[..i]))
      {
        OrderSnoc(TABLE, i);
        VisitsConcat(before, Order(TABLE[..i]), Members(TABLE[i].who));
        VisitsKeepFresh(before, Order(TABLE[..i]));
        ResyncClient(TABLE[i].who);
      }
      assert TABLE[..|TABLE|] == TABLE;
      if before.slot == FREE { RescanIsHandover(before); }
    }

    // ch32_pfic_resync_changed
    method ResyncChanged(bits: set<Irq>)
      modifies this
      ensures State() == Visits(old(State()), Order(Changed(TABLE, bits)))
    {
      ghost var before := State();
      for i := 0 to |TABLE|
        invariant State() == Visits(before, Order(Changed(TABLE[..i], bits)))
      {
        var e := TABLE[i];
        assert TABLE[..i + 1] == TABLE[..i] + [e];
        ChangedSnoc(TABLE[..i], bits, e);
        if e.mask * bits != {} {
          ghost var done := Changed(TABLE[..i], bits);
          OrderSnoc(done + [e], |done|);
          assert (done + [e])[..|done|] == done && (done + [e])[..|done| + 1] == done + [e];
          VisitsConcat(before, Order(done), Members(e.who));
          ResyncClient(e.who);
        } else {
          assert Changed(TABLE[..i + 1], bits) == Changed(TABLE[..i], bits);
        }
      }
      assert TABLE[..|TABLE|] == TABLE;
    }

    // ----- Software-pended interrupts --------------------------------------------------

    // ch32_pfic_inject_meip_for_irq on the set bits of one word
    method InjectMeipForIrq(enabled: set<Irq>)
      requires enabled != {}
      modifies this
      ensures State() == Inject(old(State()), Lowest(enabled))
    {
      var n := Lowest(enabled);
      if slot == FREE {
        ipr := ipr - {n};
        iactr := iactr + {n};
        slot := n;
        meip := true;
      }
    }

    // ch32_pfic_resync_software_pending: word by word, lowest bit of the first word
    // that has one.
    method ResyncSoftwarePending()
      modifies this
      ensures State() == SoftwarePending(old(State()))
    {
      if slot != FREE { return; }
      ghost var candidates := SoftwareCandidates(State());
      for wd := 0 to 8
        invariant State() == old(State())
        invariant forall n :: n in candidates ==> n / 32 >= wd
      {
        var word := set n | n in ipr && n in ienr && n / 32 == wd && !Covered(n);
        FirstWord(candidates, word, wd);
        if word != {} {
          InjectMeipForIrq(word);
          return;
        }
      }
    }

    // ----- Trap return -----------------------------------------------------------------

    // ch32_pfic_on_mret
    method PficOnMret(n: Irq)
      requires n == slot
      modifies this
      ensures State() == OnMret(old(State()))
    {
      iactr := iactr - {n};
      slot := FREE;
      meip := false;
      RescanPending();
      ResyncSoftwarePending();
    }

    // helper_mret, the vectored-handler part
    method TrapReturn()
      modifies this
      ensures State() == MretSpec(old(State()))
    {
      if inIsr > 0 { inIsr := inIsr - 1; }
      if slot != FREE { PficOnMret(slot); }
    }

    // ----- Register writes -------------------------------------------------------------

    method WriteIenr(bits: set<Irq>)
      requires OneWord(bits)
      modifies this
      ensures State() == EnableWriteSpec(old(State()), bits)
    {
      var before := ienr;
      ienr := ienr + bits;
      assert (ienr - before) + (before - ienr) == bits - before;
      ResyncChanged((ienr - before) + (before - ienr));
    }

    method WriteIrer(bits: set<Irq>)
      requires OneWord(bits)
      modifies this
      ensures State() == DisableWriteSpec(old(State()), bits)
    {
      var before := ienr;
      ienr := ienr - bits;
      assert (ienr - before) + (before - ienr) == bits * before;
      ResyncChanged((ienr - before) + (before - ienr));
    }

    method WriteIpsr(bits: set<Irq>)
      requires OneWord(bits)
      modifies this
      ensures State() == PendWriteSpec(old(State()), bits)
    {
      ipr := ipr + bits;
      var enabled := (ienr * bits) - {SOFTWARE_IRQ};
      if enabled != {} { InjectMeipForIrq(enabled); }
    }

    // The flag-clear write of one DMA controller; a channel that owned the slot gives it
    // back, but nobody is rescanned.
    method WriteDmaIntfcr(controller: Controller, flags: set<Irq>)
      requires forall n :: n in flags ==> n in controller.Irqs()
      modifies this
      ensures State() == DmaAckSpec(old(State()), controller, flags)
    {
      tcif := tcif - flags;
      if slot in controller.Irqs() {
        if slot !in tcif {
          meip := false;
          slot := FREE;
        }
      }
    }

    // ch32_dma_finish_channel: like DmaFireIrq, but without a pending bit when the slot is busy;
    // the channel's flag and enable stay set, so that a later rescan fires it.
    method DmaFinishIrq(n: Irq)
      modifies this
      ensures State() == PumpDoneSpec(old(State()), n)
    {
      if n in ienr && slot == FREE {
        slot := n;
        meip := true;
      }
    }

    // ch32_machine_reset, as far as it touches this state, in its order.
    method Reset()
      modifies this
      ensures State() == MachineResetSpec(old(State()))
    {
      ienr, ipr, iactr := RESET_IENR, {}, {};
      tcie, tcif := {}, {};
      ResetUsarts();
      ResetCpu();
      ResetGuarded();
    }

    // The CPU reset; the flags of the remaining devices are cleared around it.
    method ResetCpu()
      modifies this
      ensures State() == old(State()).(line := {}, host := {}, slot := FREE, inIsr := 0)
    {
      line, host := {}, {};
      slot, inIsr := FREE, 0;
    }

    // The light USARTs resync with their lines down; USART1 gives the slot back by hand.
    method ResetUsarts()
      requires ienr == RESET_IENR && ipr == {} && iactr == {}
      modifies this
      ensures State() == old(State()).(slot := slot, meip := meip, line := line, active := active)
      ensures Unguarded(active, present) == Unguarded(old(active), present)
      ensures meip == (old(meip) && KindOf(old(slot)) != Level)
    {
      ghost var owner := slot;
      ghost var before := State();
      line := line - (set n | n in LITE_IRQS);
      QuietVisits(State(), LITE_IRQS);
      assert Members(UsartLite) == LITE_IRQS;
      ResyncClient(UsartLite);
      LiteIrqs(owner);
      if slot == USART1_IRQ {
        meip := false;
        slot := FREE;
        iactr := iactr - {USART1_IRQ};
      }
      assert iactr == {};
    }

    // The ETH, ETH10M and timer resets: each clears its latch and resyncs.
    method ResetGuarded()
      requires slot == FREE && ienr == RESET_IENR
      modifies this
      ensures var s := old(State());
              State() == s.(active := Unguarded(s.active, s.present))
    {
      ghost var before := State();
      if ETH_IRQ in present {
        active := active - {ETH_IRQ};
        QuietLatch(State(), ETH_IRQ);
        LatchedResync(ETH_IRQ);
      }
      if ETH10M_IRQ in present {
        active := active - {ETH10M_IRQ};
        QuietLatch(State(), ETH10M_IRQ);
        Eth10mResync();
      }
      ResetTimers();
      forall n ensures KindOf(n) == Latched <==> n in TIM_IRQS || n == ETH_IRQ { TimIrqs(n); }
      assert active == Unguarded(before.active, before.present);
    }

    // ch32_tim_reset
    method ResetTimers()
      requires slot == FREE && ienr == RESET_IENR
      modifies this
      ensures var s := old(State());
              State() == s.(active := s.active - (set n | n in TIM_IRQS))
    {
      ghost var before := State();
      for i := 0 to |TIM_IRQS|
        invariant State() == before.(active := before.active - (set n | n in TIM_IRQS[..i]))
      {
        active := active - {TIM_IRQS[i]};
        QuietLatch(State(), TIM_IRQS[i]);
        LatchedResync(TIM_IRQS[i]);
        assert TIM_IRQS[..i + 1] == TIM_IRQS[..i] + [TIM_IRQS[i]];
      }
      assert TIM_IRQS[..|TIM_IRQS|] == TIM_IRQS;
    }
  }
}
