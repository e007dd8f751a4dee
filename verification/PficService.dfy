// When a free slot means that nobody is waiting for it, and which events break that.
module PficService {
  import opened PficModel
  import opened PficRuns
  import opened PficTheorems

  // No eligible client is left waiting beside a free slot.
  ghost predicate Served(s: Pfic) {
    s.slot == FREE ==> NoneEligible(s)
  }

  // ----- Every client is in the table --------------------------------------------------

  // The table entry whose mask names a client.
  function EntryOf(n: Irq): (k: nat)
    requires KindOf(n) != NoClient
    ensures k < |TABLE| && n in TABLE[k].mask
  {
    if n == USART1_IRQ then 2
    else if n == 54 || n == 55 then 3
    else if 44 <= n <= 46 then 4
    else if n == ETH10M_IRQ then 5
    else if n == 68 || n == 69 || 87 <= n <= 89 then 6
    else if n == ETH_IRQ then 7
    else if n == 66 || n == 70 || n == 71 then 8
    else if n == USBHS_IRQ then 9
    else if n == USBFS_IRQ then 10
    else if n <= 31 then 11
    else if n <= 33 then 12
    else if n <= 76 then 13
    else 14
  }

  lemma EntryVisits(n: Irq)
    requires KindOf(n) != NoClient
    ensures n in Members(TABLE[EntryOf(n)].who)
  {
    DmaMembers(n);
    assert LITE_IRQS == [54, 55, 68, 69, 87, 88, 89] && TIM_IRQS == [44, 45, 46, 66, 70, 71];
  }

  lemma {:induction false} ChangedVisits(t: seq<Entry>, bits: set<Irq>, k: nat, n: Irq)
    requires k < |t| && n in t[k].mask && n in bits && n in Members(t[k].who)
    ensures n in Order(Changed(t, bits))
  {
    var tail := Changed(t[1..], bits);
    if k == 0 {
      assert n in t[0].mask * bits;
      assert ([t[0]] + tail)[0] == t[0];
      InOrder([t[0]] + tail, 0, n);
    } else {
      ChangedVisits(t[1..], bits, k - 1, n);
      OrderConcat(if t[0].mask * bits != {} then [t[0]] else [], tail);
    }
  }

  lemma ClientInTable(n: Irq)
    requires KindOf(n) != NoClient
    ensures n in Order(TABLE)
  {
    EntryVisits(n);
    InOrder(TABLE, EntryOf(n), n);
  }

  // Nobody of the order is eligible exactly when the first eligible is 0.
  lemma FirstIsNone(s: Pfic, order: seq<Irq>)
    ensures First(s, order) == FREE <==> forall n :: n in order ==> !Eligible(s, n)
  {
    var i := FirstIsFirst(s, order);
    if i < |order| { assert order[i] in order; }
  }

  lemma NobodyEligible(s: Pfic)
    ensures NoneEligible(s) <==> First(s, Order(TABLE)) == FREE
    ensures NoneEligible(s) <==> forall n :: !Eligible(s, n)
  {
    FirstIsNone(s, Order(TABLE));
    forall n | Eligible(s, n) ensures n in Order(TABLE) { ClientInTable(n); }
    if NoneEligible(s) {
      forall n | n in Order(TABLE) ensures !Eligible(s, n) {
        var j :| 0 <= j < |Order(TABLE)| && Order(TABLE)[j] == n;
      }
    }
  }

  ghost predicate SameEligible(s: Pfic, t: Pfic) {
    forall n :: Eligible(s, n) == Eligible(t, n)
  }

  lemma SameServed(s: Pfic, t: Pfic)
    requires SameEligible(s, t)
    ensures NoneEligible(s) == NoneEligible(t)
    ensures forall order :: First(s, order) == First(t, order)
  {
    NobodyEligible(s);
    NobodyEligible(t);
    forall order ensures First(s, order) == First(t, order) { SameFirst(s, t, order); }
  }

  // ----- Visiting ----------------------------------------------------------------------

  // A USB host that left host mode, or was disabled, frees its slot without a rescan.
  predicate SwitchedOff(s: Pfic, n: Irq) {
    KindOf(n) == Usb && Present(s, n) && (n !in s.host || n !in s.ienr)
  }

  // The rest of an order behind the first visit to a client.
  function Behind(order: seq<Irq>, n: Irq): seq<Irq> {
    if order == [] then [] else if order[0] == n then order[1..] else Behind(order[1..], n)
  }

  // The visits reach a switched-off owner, nobody behind it takes the slot, and somebody
  // else is left waiting.
  predicate Abandons(s: Pfic, order: seq<Irq>) {
    s.slot in order && SwitchedOff(s, s.slot) &&
    First(s, Behind(order, s.slot)) == FREE && First(s, Order(TABLE)) != FREE
  }

  // From a free slot the visits give it to the first eligible of the order.
  lemma VisitsFromFree(s: Pfic, order: seq<Irq>)
    requires s.slot == FREE
    ensures Visits(s, order).slot == First(s, order)
    ensures First(s, order) == FREE ==> SameEligible(s, Visits(s, order))
  {
    ScanFromFree(s, order);
  }

  // While somebody else owns the slot a visit changes nobody's eligibility.
  lemma VisitBesideOwner(s: Pfic, n: Irq)
    requires s.slot != FREE && s.slot != n
    ensures var t := Visit(s, n);
            t.slot == s.slot && SameEligible(s, t) && SwitchedOff(t, t.slot) == SwitchedOff(s, s.slot)
  {
  }

  lemma {:induction false} VisitsBesideOwner(s: Pfic, order: seq<Irq>)
    requires s.slot != FREE && s.slot !in order
    ensures var t := Visits(s, order);
            t.slot == s.slot && SameEligible(s, t) && SwitchedOff(t, t.slot) == SwitchedOff(s, s.slot)
  {
    if order != [] {
      var front, n := order[..|order| - 1], order[|order| - 1];
      assert n in order && forall x :: x in front ==> x in order;
      VisitsBesideOwner(s, front);
      VisitBesideOwner(Visits(s, front), n);
    }
  }

  // Nobody waits beside a free slot, and an owner is not a switched-off host.
  ghost predicate Calm(s: Pfic) {
    if s.slot == FREE then NoneEligible(s) else !SwitchedOff(s, s.slot)
  }

  lemma HandoverIsCalm(s: Pfic)
    requires s.slot == FREE
    ensures Calm(Handover(s))
    ensures Handover(s).slot == FREE ==> SameEligible(s, Handover(s)) && NoneEligible(s)
  {
    FirstWants(s, Order(TABLE));
    NobodyEligible(s);
    NobodyEligible(Handover(s));
  }

  lemma VisitKeepsCalm(s: Pfic, n: Irq)
    requires Calm(s)
    ensures Calm(Visit(s, n))
  {
    var t := Visit(s, n);
    if s.slot == FREE {
      NobodyEligible(s);
      NobodyEligible(t);
    } else if s.slot == n {
      HandoverIsCalm(Release(s));
      OwnerVisit(s, n);
    } else {
      VisitBesideOwner(s, n);
    }
  }

  // A visit to the owner keeps it, or hands over, apart from its latch.
  lemma OwnerVisit(s: Pfic, n: Irq)
    requires s.slot == n && n != FREE && !SwitchedOff(s, n)
    ensures var t, h := Visit(s, n), Handover(Release(s));
            || t.slot == n
            || t == h
            || (t == h.(active := h.active - {n}) && !Wants(s, n))
    ensures Visit(s, n).slot == n ==> !SwitchedOff(Visit(s, n), n)
    ensures Visit(s, n).slot != n ==> (Calm(Handover(Release(s))) ==> Calm(Visit(s, n)))
  {
    var t, h := Visit(s, n), Handover(Release(s));
    if t.slot == FREE {
      assert SameEligible(h, t);
      NobodyEligible(h);
      NobodyEligible(t);
    }
  }

  lemma {:induction false} VisitsKeepCalm(s: Pfic, order: seq<Irq>)
    requires Calm(s)
    ensures Calm(Visits(s, order))
  {
    if order != [] {
      VisitsKeepCalm(s, order[..|order| - 1]);
      VisitKeepsCalm(Visits(s, order[..|order| - 1]), order[|order| - 1]);
    }
  }

  // Visits that find the slot occupied leave nobody waiting beside a free slot, unless they
  // abandon it.
  lemma VisitsServe(s: Pfic, order: seq<Irq>)
    requires s.slot != FREE
    ensures Served(Visits(s, order)) <==> !Abandons(s, order)
  {
    if !SwitchedOff(s, s.slot) {
      VisitsKeepCalm(s, order);
    } else if s.slot !in order {
      VisitsBesideOwner(s, order);
    } else {
      SwitchedOffVisited(s, order);
    }
  }

  lemma SwitchedOffVisited(s: Pfic, order: seq<Irq>)
    requires s.slot != FREE && SwitchedOff(s, s.slot) && s.slot in order
    ensures Served(Visits(s, order)) <==> !Abandons(s, order)
  {
    var front := Before(order, s.slot);
    FreedOnVisit(s, front, Behind(order, s.slot));
    FreedServed(s, Release(Visits(s, front)), Behind(order, s.slot));
  }

  // The visit that reaches the owner only frees the slot.
  lemma FreedOnVisit(s: Pfic, front: seq<Irq>, rest: seq<Irq>)
    requires s.slot != FREE && SwitchedOff(s, s.slot) && s.slot !in front
    ensures var free := Release(Visits(s, front));
            && SameEligible(s, free)
            && Visits(s, front + [s.slot] + rest) == Visits(free, rest)
  {
    VisitsBesideOwner(s, front);
    VisitsThrough(s, front, s.slot, rest);
    assert Visit(Visits(s, front), s.slot) == Release(Visits(s, front));
  }

  lemma VisitsThrough(s: Pfic, front: seq<Irq>, n: Irq, rest: seq<Irq>)
    ensures Visits(s, front + [n] + rest) == Visits(Visit(Visits(s, front), n), rest)
  {
    VisitsConcat(s, front + [n], rest);
    VisitsConcat(s, front, [n]);
    VisitsOne(Visits(s, front), n);
  }

  lemma VisitsOne(s: Pfic, n: Irq)
    ensures Visits(s, [n]) == Visit(s, n)
  {
    assert [n][..0] == [];
  }

  lemma FreedServed(s: Pfic, free: Pfic, rest: seq<Irq>)
    requires free.slot == FREE && SameEligible(s, free)
    ensures Served(Visits(free, rest)) <==> First(s, rest) != FREE || First(s, Order(TABLE)) == FREE
  {
    VisitsFromFree(free, rest);
    SameServed(s, free);
    NobodyEligible(s);
    if First(s, rest) == FREE { SameServed(free, Visits(free, rest)); }
  }

  lemma {:induction false} Before(order: seq<Irq>, n: Irq) returns (front: seq<Irq>)
    requires n in order
    ensures order == front + [n] + Behind(order, n) && n !in front
  {
    if order[0] == n {
      front := [];
    } else {
      var rest := Before(order[1..], n);
      front := [order[0]] + rest;
    }
  }

  // ----- Every event -------------------------------------------------------------------

  // The events that leave a client waiting beside a free slot: a device raises its flag and
  // has not been resynchronised yet, a switched-off host is visited, or a DMA flag is
  // cleared under the owning channel.
  predicate Unserves(s: Pfic, e: Event)
    requires ValidEvent(e)
  {
    match e
    case Lines(_, _, _, _) => s.slot == FREE && First(Step(s, e), Order(TABLE)) != FREE
    case Resync(who) => Abandons(s, Members(who))
    case EnableWrite(bits) => Abandons(s.(ienr := s.ienr + bits), Order(Changed(TABLE, bits - s.ienr)))
    case DisableWrite(bits) => Abandons(s.(ienr := s.ienr - bits), Order(Changed(TABLE, bits * s.ienr)))
    case DmaAck(controller, flags) =>
      s.slot in controller.Irqs() && s.slot !in s.tcif - flags &&
      First(s.(tcif := s.tcif - flags), Order(TABLE)) != FREE
    case _ => false
  }

  // In every run a free slot means that no client is waiting, until one of these events.
  lemma StepKeepsServed(s: Pfic, e: Event)
    requires Served(s) && ValidEvent(e)
    ensures Served(Step(s, e)) <==> !Unserves(s, e)
  {
    NobodyEligible(s);
    NobodyEligible(Step(s, e));
    match e
    case Lines(_, _, _, _) =>
    case Resync(who) => ServedVisits(s, s, Members(who));
    case TimUpdate(tim) => TimServes(s, tim);
    case EnableWrite(bits) => EnableServes(s, bits);
    case DisableWrite(bits) =>
      ServedVisits(s, s.(ienr := s.ienr - bits), Order(Changed(TABLE, bits * s.ienr)));
    case PendWrite(bits) => PendServes(s, bits);
    case DmaAck(controller, flags) => AckServes(s, controller, flags);
    case Mret => MretServes(s);
    case _ =>
  }

  lemma {:induction false} RunsKeepServed(states: seq<Pfic>, events: seq<Event>, k: nat)
    requires Run(states, events) && Served(states[0]) && k < |states|
    requires forall i :: 0 <= i < k ==> !Unserves(states[i], events[i])
    ensures Served(states[k])
  {
    if k > 0 {
      RunsKeepServed(states, events, k - 1);
      StepKeepsServed(states[k - 1], events[k - 1]);
    }
  }

  // Visits after a change that makes nobody eligible outside the visited order.
  lemma ServedVisits(s: Pfic, t: Pfic, order: seq<Irq>)
    requires Served(s) && t.slot == s.slot
    requires forall n :: Eligible(t, n) && !Eligible(s, n) ==> n in order
    ensures Served(Visits(t, order)) <==> !Abandons(t, order)
  {
    if t.slot == FREE {
      VisitsFromFree(t, order);
      FirstIsNone(t, order);
      NobodyEligible(s);
      NobodyEligible(Visits(t, order));
    } else {
      VisitsServe(t, order);
    }
  }

  lemma TimServes(s: Pfic, tim: nat)
    requires Served(s) && tim < |TIM_IRQS|
    ensures Served(Visit(s, TIM_IRQS[tim]))
  {
    var n := TIM_IRQS[tim];
    ServedVisits(s, s, [n]);
    VisitsOne(s, n);
    assert KindOf(n) == Latched;
  }

  lemma EnableServes(s: Pfic, bits: set<Irq>)
    requires Served(s) && OneWord(bits)
    ensures Served(EnableWriteSpec(s, bits)) <==> !Unserves(s, EnableWrite(bits))
  {
    var t, changed := s.(ienr := s.ienr + bits), bits - s.ienr;
    forall n | Eligible(t, n) && !Eligible(s, n) ensures n in Order(Changed(TABLE, changed)) {
      EntryVisits(n);
      ChangedVisits(TABLE, changed, EntryOf(n), n);
    }
    ServedVisits(s, t, Order(Changed(TABLE, changed)));
  }

  lemma PendServes(s: Pfic, bits: set<Irq>)
    requires Served(s)
    ensures Served(PendWriteSpec(s, bits))
  {
    NobodyEligible(s);
    NobodyEligible(PendWriteSpec(s, bits));
  }

  lemma AckServes(s: Pfic, controller: Controller, flags: set<Irq>)
    requires Served(s)
    ensures Served(DmaAckSpec(s, controller, flags)) <==>
            !(s.slot in controller.Irqs() && s.slot !in s.tcif - flags &&
              First(s.(tcif := s.tcif - flags), Order(TABLE)) != FREE)
  {
    var a, t := s.(tcif := s.tcif - flags), DmaAckSpec(s, controller, flags);
    NobodyEligible(s);
    NobodyEligible(t);
    assert SameEligible(a, t);
    SameServed(a, t);
    NobodyEligible(a);
    forall n | n in controller.Irqs() ensures n != FREE { }
  }

  lemma MretServes(s: Pfic)
    requires Served(s)
    ensures Served(MretSpec(s))
  {
    NobodyEligible(s);
    NobodyEligible(MretSpec(s));
    if s.slot != FREE {
      HandoverIsCalm(Release(Returned(s)));
      NobodyEligible(Handover(Release(Returned(s))));
    }
  }

  // A pump completion that finds the slot busy leaves nothing behind, but its channel goes on
  // waiting, and the next trap return hands the slot over and leaves the channel pending.
  lemma BusyPumpWaits(s: Pfic, ch: Irq)
    requires s.slot != FREE && KindOf(ch) == Dma && Wants(s, ch)
    ensures PumpDoneSpec(s, ch) == s && Eligible(s, ch)
    ensures MretSpec(s).slot != FREE && MretSpec(s).meip && ch in MretSpec(s).ipr
  {
    NobodyEligible(s);
    MretHandsOver(s);
    FirstWants(s, Order(TABLE));
    assert ch in WantingDma(s);
  }

  ghost predicate OnlyFlagsOf(s: Pfic, who: Client, e: Event)
    requires e.Lines?
  {
    forall n :: n !in Members(who) ==>
      (n in e.line <==> n in s.line) && (n in e.host <==> n in s.host) &&
      (n in e.tcie <==> n in s.tcie) && (n in e.tcif <==> n in s.tcif)
  }

  // A device that changes its own flags and is resynchronised leaves nobody waiting, unless
  // it is a USB host that switches itself off while owning the slot.
  lemma ReportKeepsServed(s: Pfic, who: Client, e: Event)
    requires Served(s) && e.Lines? && OnlyFlagsOf(s, who, e)
    ensures Served(Step(Step(s, e), Resync(who))) <==> !Abandons(Step(s, e), Members(who))
  {
    ServedVisits(s, Step(s, e), Members(who));
  }
}
