// Short runs from power-on that reach the conditions under which a promise fails.
module PficExamples {
  import opened PficModel
  import opened PficDelivery
  import opened PficRuns
  import opened PficService
  import opened PficSoftware
  import opened PficTheorems

  // The run of these events from power-on, on a board with the given optional devices.
  ghost predicate FromPowerOn(states: seq<Pfic>, events: seq<Event>, devices: set<Irq>) {
    Run(states, events) && states[0] == POWER_ON.(present := devices)
  }

  lemma Started(devices: set<Irq>) returns (states: seq<Pfic>)
    ensures FromPowerOn(states, [], devices) && states == [POWER_ON.(present := devices)]
  {
    states := [POWER_ON.(present := devices)];
  }

  // One event more.
  lemma Next(states: seq<Pfic>, events: seq<Event>, devices: set<Irq>, e: Event)
    returns (more: seq<Pfic>, log: seq<Event>)
    requires FromPowerOn(states, events, devices) && ValidEvent(e)
    ensures log == events + [e] && FromPowerOn(more, log, devices)
    ensures more == states + [Step(states[|events|], e)]
  {
    more, log := states + [Step(states[|events|], e)], events + [e];
    forall i | 0 <= i < |log| ensures ValidEvent(log[i]) && more[i + 1] == Step(more[i], log[i]) {
      if i < |events| { assert events[i] == log[i]; }
    }
  }

  // No device has a flag up, and the slot and all latches are clear.
  ghost predicate Quiet(s: Pfic) {
    s.slot == FREE && s.line == {} && s.host == {} && s.tcie == {} && s.active == {}
  }

  lemma {:induction false} QuietVisits(s: Pfic, order: seq<Irq>)
    requires Quiet(s)
    ensures Visits(s, order) == s
  {
    if order != [] {
      QuietVisits(s, order[..|order| - 1]);
      assert s.active - {order[|order| - 1]} == s.active;
    }
  }

  // Enabling interrupts while all is quiet changes nothing else.
  lemma EnabledQuietly(s: Pfic, bits: set<Irq>)
    requires Quiet(s)
    ensures EnableWriteSpec(s, bits) == s.(ienr := s.ienr + bits)
  {
    QuietVisits(s.(ienr := s.ienr + bits), Order(Changed(TABLE, bits - s.ienr)));
  }

  // Interrupt 0 enabled and pended takes the slot, which still reads as free, with MEIP up.
  lemma InterruptZeroBreaksInv() returns (states: seq<Pfic>)
    ensures FromPowerOn(states, [EnableWrite({0}), PendWrite({0})], {})
    ensures Inv(states[1]) && !Inv(states[2])
  {
    states := Started({});
    var events: seq<Event> := [];
    EnabledQuietly(states[|events|], {0});
    states, events := Next(states, events, {}, EnableWrite({0}));
    StepKeepsInv(states[1], PendWrite({0}));
    states, events := Next(states, events, {}, PendWrite({0}));
  }

  // A pending-set write of one enabled interrupt gives it the free slot.
  lemma PendedAlone(s: Pfic, n: Irq)
    requires s.slot == FREE && n in s.ienr && n != FREE && n != SOFTWARE_IRQ
    ensures PendWriteSpec(s, {n}) == Inject(s.(ipr := s.ipr + {n}), n)
  {
    assert (s.ienr * {n}) - {SOFTWARE_IRQ} == {n};
  }

  // The run in which an interrupt owns the slot because a write pended it.
  lemma SoftwareOwner(n: Irq) returns (states: seq<Pfic>)
    requires n != FREE && n != SOFTWARE_IRQ
    ensures FromPowerOn(states, [EnableWrite({n}), PendWrite({n})], {})
    ensures states[2] == POWER_ON.(ienr := RESET_IENR + {n}, iactr := {n}, slot := n, meip := true)
  {
    states := Started({});
    var events: seq<Event> := [];
    EnabledQuietly(states[0], {n});
    states, events := Next(states, events, {}, EnableWrite({n}));
    PendedAlone(states[1], n);
    states, events := Next(states, events, {}, PendWrite({n}));
    assert {n} - {n} == {} && states[1].ipr + {n} == {n};
  }

  // A machine reset under a software-pended owner leaves MEIP up beside a free slot.
  lemma ResetBreaksInv() returns (states: seq<Pfic>)
    ensures FromPowerOn(states, [EnableWrite({16}), PendWrite({16}), MachineReset], {})
    ensures Inv(states[2]) && !Inv(states[3])
  {
    states := SoftwareOwner(16);
    var events := [EnableWrite({16}), PendWrite({16})];
    StepKeepsInv(states[2], MachineReset);
    states, events := Next(states, events, {}, MachineReset);
  }

  // A timer made owner by a pending-set write has its latch clear; when it requests, the
  // return of its handler gives the slot back to it.
  lemma PendedTimerKeepsSlot() returns (states: seq<Pfic>)
    ensures FromPowerOn(states, [EnableWrite({44}), PendWrite({44}), Trap, Lines({44}, {}, {}, {}), Mret], {})
    ensures Guarded(44) && states[4].slot == 44 && states[5].slot == 44
  {
    states := SoftwareOwner(44);
    var events := [EnableWrite({44}), PendWrite({44})];
    var owner := states[2];
    states, events := Next(states, events, {}, Trap);
    states, events := Next(states, events, {}, Lines({44}, {}, {}, {}));
    KeepsSlot(owner.(inIsr := 1, line := {44}));
    states, events := Next(states, events, {}, Mret);
  }

  lemma KeepsSlot(s: Pfic)
    requires s.slot == 44 && s.line == {44} && s.ienr == RESET_IENR + {44} && s.active == {} && s.tcie == {}
    ensures MretSpec(s).slot == 44
  {
    OnlyEligible(s, 44);
    MretKeepsOwnerIff(s);
  }

  lemma OnlyEligible(s: Pfic, n: Irq)
    requires Eligible(s, n) && forall m :: Eligible(s, m) ==> m == n
    ensures First(s, Order(TABLE)) == n
  {
    ClientInTable(n);
    FirstIsNone(s, Order(TABLE));
    FirstWants(s, Order(TABLE));
  }

  // Two interrupts enabled while all is quiet.
  lemma BothEnabled(a: Irq, b: Irq, devices: set<Irq>) returns (states: seq<Pfic>)
    ensures FromPowerOn(states, [EnableWrite({a}), EnableWrite({b})], devices)
    ensures states[2] == POWER_ON.(present := devices, ienr := RESET_IENR + {a} + {b})
  {
    states := Started(devices);
    var events: seq<Event> := [];
    EnabledQuietly(states[0], {a});
    states, events := Next(states, events, devices, EnableWrite({a}));
    EnabledQuietly(states[1], {b});
    states, events := Next(states, events, devices, EnableWrite({b}));
  }

  // A visit to the one client of a table entry.
  lemma Visited(s: Pfic, who: Client, n: Irq)
    requires Members(who) == [n]
    ensures Step(s, Resync(who)) == Visit(s, n)
  {
    VisitsOne(s, n);
  }

  // A USART that has withdrawn inside its handler goes on holding the slot, MEIP down.
  lemma UsartKeepsSlotInHandler() returns (states: seq<Pfic>)
    ensures FromPowerOn(states, [EnableWrite({53}), Lines({53}, {}, {}, {}), Resync(Usart1), Trap,
                                 Lines({}, {}, {}, {}), Resync(Usart1)], {})
    ensures states[6].slot == 53 && !states[6].meip && !Wants(states[6], 53)
  {
    states := UsartOwner();
    var events := USART_OWNS;
    states, events := Next(states, events, {}, Trap);
    states, events := Next(states, events, {}, Lines({}, {}, {}, {}));
    Visited(states[5], Usart1, USART1_IRQ);
    states, events := Next(states, events, {}, Resync(Usart1));
  }

  const USART_OWNS: seq<Event> := [EnableWrite({53}), Lines({53}, {}, {}, {}), Resync(Usart1)]

  lemma UsartOwner() returns (states: seq<Pfic>)
    ensures FromPowerOn(states, USART_OWNS, {})
    ensures states[3] == Claim(POWER_ON.(ienr := RESET_IENR + {53}, line := {53}), USART1_IRQ)
  {
    states := Started({});
    var events: seq<Event> := [];
    EnabledQuietly(states[0], {53});
    states, events := Next(states, events, {}, EnableWrite({53}));
    states, events := Next(states, events, {}, Lines({53}, {}, {}, {}));
    Visited(states[2], Usart1, USART1_IRQ);
    states, events := Next(states, events, {}, Resync(Usart1));
  }

  // ----- A client stranded -------------------------------------------------------------

  const DMA_OWNS: seq<Event> := [
    EnableWrite({27}), EnableWrite({53}), Lines({}, {}, {27}, {27}), DmaDone(27)]

  const DMA_OWNER: Pfic := POWER_ON.(
    ienr := RESET_IENR + {27} + {53}, tcie := {27}, tcif := {27}, slot := 27, meip := true)

  lemma DmaOwner() returns (states: seq<Pfic>)
    ensures FromPowerOn(states, DMA_OWNS, {}) && states[4] == DMA_OWNER
  {
    states := BothEnabled(27, 53, {});
    var events := [EnableWrite({27}), EnableWrite({53})];
    states, events := Next(states, events, {}, Lines({}, {}, {27}, {27}));
    states, events := Next(states, events, {}, DmaDone(27));
  }

  // A DMA channel owns the slot and USART1 waits; clearing the channel's flag frees the slot,
  // and USART1 goes on waiting.
  lemma FlagClearStrandsUsart() returns (states: seq<Pfic>)
    ensures FromPowerOn(
              states, DMA_OWNS + [Lines({53}, {}, {27}, {27})] + [Resync(Usart1)] + [DmaAck(Dma1, {27})], {})
    ensures Served(states[6]) && states[7].slot == FREE && Eligible(states[7], 53) && !Served(states[7])
  {
    states := DmaOwner();
    var events := DMA_OWNS;
    states, events := Next(states, events, {}, Lines({53}, {}, {27}, {27}));
    Visited(states[5], Usart1, USART1_IRQ);
    states, events := Next(states, events, {}, Resync(Usart1));
    FlagCleared(DMA_OWNER.(line := {53}));
    states, events := Next(states, events, {}, DmaAck(Dma1, {27}));
  }

  lemma FlagCleared(s: Pfic)
    requires s == DMA_OWNER.(line := {53})
    ensures var t := DmaAckSpec(s, Dma1, {27});
            t.slot == FREE && Eligible(t, 53) && !Served(t)
  {
    var t := DmaAckSpec(s, Dma1, {27});
    assert 27 in DMA1_IRQS by { assert DMA1_IRQS[0] == 27; }
    assert Eligible(t, 53);
    NobodyEligible(t);
  }

  const HOST_OWNS: seq<Event> := [
    EnableWrite({85}), EnableWrite({53}), Lines({85}, {85}, {}, {}), Resync(UsbHs)]

  const HOST_READY: Pfic := POWER_ON.(
    present := {85}, ienr := RESET_IENR + {85} + {53}, line := {85}, host := {85})

  lemma HostOwner() returns (states: seq<Pfic>)
    ensures FromPowerOn(states, HOST_OWNS, {85}) && states[4] == Claim(HOST_READY, USBHS_IRQ)
  {
    states := BothEnabled(85, 53, {85});
    var events := [EnableWrite({85}), EnableWrite({53})];
    states, events := Next(states, events, {85}, Lines({85}, {85}, {}, {}));
    Visited(HOST_READY, UsbHs, USBHS_IRQ);
    states, events := Next(states, events, {85}, Resync(UsbHs));
  }

  // The same when a USB host that owns the slot leaves host mode.
  lemma HostOffStrandsUsart() returns (states: seq<Pfic>)
    ensures FromPowerOn(
              states, HOST_OWNS + [Lines({53, 85}, {}, {}, {})] + [Resync(Usart1)] + [Resync(UsbHs)], {85})
    ensures Served(states[6]) && states[7].slot == FREE && Eligible(states[7], 53) && !Served(states[7])
  {
    states := HostOwner();
    var events := HOST_OWNS;
    states, events := Next(states, events, {85}, Lines({53, 85}, {}, {}, {}));
    Visited(states[5], Usart1, USART1_IRQ);
    states, events := Next(states, events, {85}, Resync(Usart1));
    HostVisited(Claim(HOST_READY, USBHS_IRQ).(line := {53, 85}, host := {}));
    states, events := Next(states, events, {85}, Resync(UsbHs));
  }

  lemma HostVisited(s: Pfic)
    requires s == Claim(HOST_READY, USBHS_IRQ).(line := {53, 85}, host := {})
    ensures var t := Step(s, Resync(UsbHs));
            t.slot == FREE && Eligible(t, 53) && !Served(t)
  {
    var t := Step(s, Resync(UsbHs));
    Visited(s, UsbHs, USBHS_IRQ);
    assert t == Release(s);
    assert Eligible(t, 53);
    NobodyEligible(t);
  }

  // ----- Others stranded ---------------------------------------------------------------

  // An interrupt pended first and enabled later waits beside a free slot.
  lemma LateEnableStrandsSoftware() returns (states: seq<Pfic>)
    ensures FromPowerOn(states, [PendWrite({16}), EnableWrite({16})], {})
    ensures SoftwareServed(states[1]) && states[2].slot == FREE && 16 in SoftwareCandidates(states[2])
  {
    states := Started({});
    var events: seq<Event> := [];
    assert RESET_IENR * {16} == {};
    states, events := Next(states, events, {}, PendWrite({16}));
    EnabledQuietly(states[1], {16});
    states, events := Next(states, events, {}, EnableWrite({16}));
  }

  const TIMER_READY: Pfic := POWER_ON.(ienr := RESET_IENR + {44}, inIsr := 1, line := {44})

  lemma TimerInHandler() returns (states: seq<Pfic>)
    ensures FromPowerOn(states, [EnableWrite({44}), Trap, Lines({44}, {}, {}, {})], {})
    ensures states[3] == TIMER_READY
  {
    states := Started({});
    var events: seq<Event> := [];
    EnabledQuietly(states[0], {44});
    states, events := Next(states, events, {}, EnableWrite({44}));
    states, events := Next(states, events, {}, Trap);
    states, events := Next(states, events, {}, Lines({44}, {}, {}, {}));
  }

  // A timer claims the slot while another handler runs; the return of that takes the slot from
  // it, although it goes on requesting, and its own handler was never entered.
  lemma InjectedInHandlerIsLost() returns (states: seq<Pfic>)
    ensures FromPowerOn(states, [EnableWrite({44}), Trap, Lines({44}, {}, {}, {})] + [TimUpdate(0)] + [Mret], {})
    ensures Injected(states[3], states[4], 44) && states[5].slot == FREE
    ensures Wants(states[5], 44) && 44 in states[5].active
  {
    states := TimerInHandler();
    var events := [EnableWrite({44}), Trap, Lines({44}, {}, {}, {})];
    TimerClaims();
    states, events := Next(states, events, {}, TimUpdate(0));
    states, events := Next(states, events, {}, Mret);
  }

  lemma TimerClaims()
    ensures var s := Claim(TIMER_READY, 44);
            && Step(TIMER_READY, TimUpdate(0)) == s
            && MretSpec(s).slot == FREE && Wants(MretSpec(s), 44) && 44 in MretSpec(s).active
  {
    var s := Claim(TIMER_READY, 44);
    assert TIM_IRQS[0] == 44;
    FirstWants(s, Order(TABLE));
    MretHandsOver(s);
    MretKeepsOwnerIff(s);
  }
}
