// When a free slot means that no software-pended interrupt waits, and which events break it:
// only a trap return scans for them.
module PficSoftware {
  import opened PficModel
  import opened PficRuns
  import opened PficService
  import opened PficTheorems

  // No enabled software-pended interrupt is left waiting beside a free slot.
  ghost predicate SoftwareServed(s: Pfic) {
    s.slot == FREE ==> SoftwareCandidates(s) == {}
  }

  // ----- When visits leave the slot free -----------------------------------------------

  // A visit makes the owner give up the slot.
  predicate GivesUp(s: Pfic, n: Irq) {
    && KindOf(n) != NoClient && KindOf(n) != Dma && Present(s, n) && !Wants(s, n)
    && !(KindOf(n) == Level && s.inIsr > 0)
  }

  // Nobody visited takes the free slot; or the owner gives it up and nobody follows, which for
  // a switched-off USB host means: nobody visited later on.
  predicate LeavesFree(s: Pfic, order: seq<Irq>) {
    if s.slot == FREE then First(s, order) == FREE
    else
      s.slot in order && GivesUp(s, s.slot) &&
      First(s, if SwitchedOff(s, s.slot) then Behind(order, s.slot) else Order(TABLE)) == FREE
  }

  ghost predicate Kept(s: Pfic) {
    s.slot != FREE && !GivesUp(s, s.slot)
  }

  lemma {:induction false} KeptVisits(s: Pfic, order: seq<Irq>)
    requires Kept(s)
    ensures Kept(Visits(s, order)) && Visits(s, order).slot == s.slot
  {
    if order != [] {
      KeptVisits(s, order[..|order| - 1]);
      KeptVisit(Visits(s, order[..|order| - 1]), order[|order| - 1]);
    }
  }

  lemma KeptVisit(s: Pfic, n: Irq)
    requires Kept(s)
    ensures Kept(Visit(s, n)) && Visit(s, n).slot == s.slot
  {
  }

  lemma VisitsLeaveFree(s: Pfic, order: seq<Irq>)
    ensures Visits(s, order).slot == FREE <==> LeavesFree(s, order)
  {
    if s.slot == FREE {
      VisitsFromFree(s, order);
    } else if !GivesUp(s, s.slot) {
      KeptVisits(s, order);
    } else if s.slot !in order {
      VisitsBesideOwner(s, order);
    } else {
      OwnerGivesUp(s, order);
    }
  }

  lemma OwnerGivesUp(s: Pfic, order: seq<Irq>)
    requires s.slot != FREE && s.slot in order && GivesUp(s, s.slot)
    ensures Visits(s, order).slot == FREE <==> LeavesFree(s, order)
    ensures !SwitchedOff(s, s.slot) ==> Visits(s, order).slot == First(s, Order(TABLE))
  {
    var n, rest := s.slot, Behind(order, s.slot);
    var front := Before(order, n);
    var t := Visits(s, front);
    VisitsBesideOwner(s, front);
    VisitsKeepLatchRule(s, front);
    VisitsThrough(s, front, n, rest);
    assert SwitchedOff(t, n) == SwitchedOff(s, n);
    assert GivesUp(t, n);
    SameServed(s, t);
    GivenUp(t, n, rest);
  }

  // The visit to the owner and those behind it.
  lemma GivenUp(t: Pfic, n: Irq, rest: seq<Irq>)
    requires t.slot == n && n != FREE && GivesUp(t, n)
    ensures Visits(Visit(t, n), rest).slot == FREE <==>
            First(t, if SwitchedOff(t, n) then rest else Order(TABLE)) == FREE
    ensures !SwitchedOff(t, n) ==> Visits(Visit(t, n), rest).slot == First(t, Order(TABLE))
  {
    var u := Visit(t, n);
    if SwitchedOff(t, n) {
      assert u == Release(t) && SameEligible(t, u);
      SameServed(t, u);
      VisitsFromFree(u, rest);
    } else {
      HandedOver(t, n);
      if u.slot == FREE {
        FirstIsNone(u, rest);
        VisitsFromFree(u, rest);
      } else {
        KeptVisits(u, rest);
      }
    }
  }

  lemma HandedOver(t: Pfic, n: Irq)
    requires t.slot == n && n != FREE && GivesUp(t, n) && !SwitchedOff(t, n)
    ensures var u := Visit(t, n);
            && u.slot == First(t, Order(TABLE))
            && (if u.slot == FREE then forall m :: !Eligible(u, m) else Kept(u))
  {
    var free, u := Release(t), Visit(t, n);
    assert SameEligible(t, free);
    SameServed(t, free);
    HandoverIsCalm(free);
    FirstWants(free, Order(TABLE));
    assert u.slot == Handover(free).slot;
    if u.slot == FREE {
      assert SameEligible(Handover(free), u);
      NobodyEligible(free);
    }
  }

  // ----- Visits pend nothing that the software scan looks for --------------------------

  lemma VisitKeepsCandidates(s: Pfic, n: Irq)
    ensures SoftwareCandidates(Visit(s, n)) == SoftwareCandidates(s)
  {
  }

  lemma {:induction false} VisitsKeepCandidates(s: Pfic, order: seq<Irq>)
    ensures SoftwareCandidates(Visits(s, order)) == SoftwareCandidates(s)
  {
    if order != [] {
      VisitsKeepCandidates(s, order[..|order| - 1]);
      VisitKeepsCandidates(Visits(s, order[..|order| - 1]), order[|order| - 1]);
    }
  }

  // ----- Every event -------------------------------------------------------------------

  predicate Strands(s: Pfic, order: seq<Irq>) {
    SoftwareCandidates(s) != {} && LeavesFree(s, order)
  }

  // The events that leave a software-pended interrupt waiting beside a free slot: a client
  // gives the slot up and no client follows; an interrupt that is pending already is enabled
  // while the slot is free; a DMA flag is cleared under the owning channel; or interrupt 0,
  // whose number reads as "free", is injected before others.
  predicate StrandsSoftware(s: Pfic, e: Event)
    requires ValidEvent(e)
  {
    match e
    case Resync(who) => Strands(s, Members(who))
    case TimUpdate(tim) => Strands(s, [TIM_IRQS[tim]])
    case EnableWrite(bits) => Strands(s.(ienr := s.ienr + bits), Order(Changed(TABLE, bits - s.ienr)))
    case DisableWrite(bits) => Strands(s.(ienr := s.ienr - bits), Order(Changed(TABLE, bits * s.ienr)))
    case PendWrite(bits) =>
      s.slot == FREE && FREE in s.ienr && FREE in bits &&
      SoftwareCandidates(s.(ipr := s.ipr + bits)) != {FREE}
    case DmaAck(controller, flags) =>
      s.slot in controller.Irqs() && s.slot !in s.tcif - flags && SoftwareCandidates(s) != {}
    case Mret =>
      s.slot != FREE && First(s, Order(TABLE)) == FREE &&
      FREE in s.ipr && FREE in s.ienr && SoftwareCandidates(s) != {FREE}
    case _ => false
  }

  lemma StepKeepsSoftwareServed(s: Pfic, e: Event)
    requires SoftwareServed(s) && ValidEvent(e)
    ensures SoftwareServed(Step(s, e)) <==> !StrandsSoftware(s, e)
  {
    match e
    case Resync(who) => VisitsStrand(s, Members(who));
    case TimUpdate(tim) => VisitsStrand(s, [TIM_IRQS[tim]]); VisitsOne(s, TIM_IRQS[tim]);
    case EnableWrite(bits) =>
      VisitsStrand(s.(ienr := s.ienr + bits), Order(Changed(TABLE, bits - s.ienr)));
    case DisableWrite(bits) =>
      VisitsStrand(s.(ienr := s.ienr - bits), Order(Changed(TABLE, bits * s.ienr)));
    case PendWrite(bits) => PendStrands(s, bits);
    case DmaAck(controller, flags) => AckStrands(s, controller, flags);
    case UnpendWrite(bits) => assert SoftwareCandidates(Step(s, e)) <= SoftwareCandidates(s);
    case DmaDone(ch) =>
    case PumpDone(ch) =>
    case Mret => MretStrands(s);
    case MachineReset =>
    case Trap => assert SoftwareCandidates(Step(s, e)) == SoftwareCandidates(s);
    case Lines(_, _, _, _) => assert SoftwareCandidates(Step(s, e)) == SoftwareCandidates(s);
  }

  lemma VisitsStrand(s: Pfic, order: seq<Irq>)
    ensures SoftwareServed(Visits(s, order)) <==> !Strands(s, order)
  {
    VisitsLeaveFree(s, order);
    VisitsKeepCandidates(s, order);
  }

  lemma AckStrands(s: Pfic, controller: Controller, flags: set<Irq>)
    requires SoftwareServed(s)
    ensures SoftwareServed(DmaAckSpec(s, controller, flags)) <==>
            !(s.slot in controller.Irqs() && s.slot !in s.tcif - flags && SoftwareCandidates(s) != {})
  {
    assert SoftwareCandidates(DmaAckSpec(s, controller, flags)) == SoftwareCandidates(s);
  }

  // An injection leaves the slot free only if it is interrupt 0 that is injected.
  lemma InjectStrands(s: Pfic, n: Irq)
    requires s.slot == FREE
    ensures SoftwareServed(Inject(s, n)) <==> n != FREE || SoftwareCandidates(s) <= {FREE}
  {
    assert SoftwareCandidates(Inject(s, n)) == SoftwareCandidates(s) - {n};
  }

  lemma PendStrands(s: Pfic, bits: set<Irq>)
    requires SoftwareServed(s) && OneWord(bits)
    ensures SoftwareServed(PendWriteSpec(s, bits)) <==> !StrandsSoftware(s, PendWrite(bits))
  {
    var p := s.(ipr := s.ipr + bits);
    var enabled := (p.ienr * bits) - {SOFTWARE_IRQ};
    if s.slot == FREE {
      forall n | n in SoftwareCandidates(p) ensures n in enabled {
        assert n !in SoftwareCandidates(s);
      }
      if enabled != {} {
        InjectStrands(p, Lowest(enabled));
        assert Lowest(enabled) == FREE <==> FREE in s.ienr && FREE in bits;
        assert FREE in s.ienr && FREE in bits ==> FREE in SoftwareCandidates(p);
      }
    }
  }

  lemma MretStrands(s: Pfic)
    requires SoftwareServed(s)
    ensures SoftwareServed(MretSpec(s)) <==> !StrandsSoftware(s, Mret)
  {
    assert SoftwareCandidates(Returned(s)) == SoftwareCandidates(s);
    if s.slot != FREE {
      var free := Release(Returned(s));
      FreedFirst(s);
      HandoverOutcome(free);
      var h := Handover(free);
      assert SoftwareCandidates(h) == SoftwareCandidates(s);
      if h.slot == FREE && SoftwareCandidates(h) != {} {
        InjectStrands(h, Lowest(SoftwareCandidates(h)));
      }
      assert FREE in SoftwareCandidates(s) <==> FREE in s.ipr && FREE in s.ienr;
    }
  }

  lemma {:induction false} RunsKeepSoftwareServed(states: seq<Pfic>, events: seq<Event>, k: nat)
    requires Run(states, events) && SoftwareServed(states[0]) && k < |states|
    requires forall i :: 0 <= i < k ==> !StrandsSoftware(states[i], events[i])
    ensures SoftwareServed(states[k])
  {
    if k > 0 {
      RunsKeepSoftwareServed(states, events, k - 1);
      StepKeepsSoftwareServed(states[k - 1], events[k - 1]);
    }
  }
}
