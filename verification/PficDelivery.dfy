// What becomes of an injection by a timer or by ETH: it owns the slot until it is evicted,
// and whether the CPU could take it before that.
module PficDelivery {
  import opened PficModel
  import opened PficRuns
  import opened PficService
  import opened PficTheorems

  // ----- One event ---------------------------------------------------------------------

  // The clients visited include an owner that no longer requests.
  predicate Withdraws(s: Pfic, order: seq<Irq>) {
    s.slot in order && Present(s, s.slot) && !Wants(s, s.slot)
  }

  // The events that take the slot from an owner whose latch is set: any trap return, a reset,
  // and a visit to the owner after its request has gone.
  predicate Evicts(s: Pfic, e: Event)
    requires ValidEvent(e)
  {
    match e
    case Mret => true
    case MachineReset => true
    case Resync(who) => Withdraws(s, Members(who))
    case TimUpdate(tim) => Withdraws(s, [TIM_IRQS[tim]])
    case EnableWrite(bits) => Withdraws(s.(ienr := s.ienr + bits), Order(Changed(TABLE, bits - s.ienr)))
    case DisableWrite(bits) => Withdraws(s.(ienr := s.ienr - bits), Order(Changed(TABLE, bits * s.ienr)))
    case _ => false
  }

  // A timer or ETH block owns the slot with its latch set and MEIP up, so that the next handler
  // entered is its own.
  predicate Owns(s: Pfic, n: Irq) {
    KindOf(n) == Latched && s.slot == n && n in s.active && s.meip
  }

  lemma VisitEvicts(s: Pfic, n: Irq, m: Irq)
    requires Owns(s, n)
    ensures if Withdraws(s, [m]) then Visit(s, m).slot != n else Owns(Visit(s, m), n)
  {
    if Withdraws(s, [m]) {
      FirstWants(Release(s), Order(TABLE));
    }
  }

  // A client that does not request is never given the slot.
  lemma UnwantedVisit(s: Pfic, n: Irq, m: Irq)
    requires n != FREE && s.slot != n && !Wants(s, n)
    ensures Visit(s, m).slot != n
  {
    FirstWants(Release(s), Order(TABLE));
  }

  lemma {:induction false} VisitsEvict(s: Pfic, order: seq<Irq>, n: Irq)
    requires Owns(s, n)
    ensures if Withdraws(s, order) then Visits(s, order).slot != n else Owns(Visits(s, order), n)
  {
    if order != [] {
      var front, m := order[..|order| - 1], order[|order| - 1];
      var t := Visits(s, front);
      VisitsEvict(s, front, n);
      VisitsKeepLatchRule(s, front);
      if Withdraws(s, front) { UnwantedVisit(t, n, m); } else { VisitEvicts(t, n, m); }
      assert order == front + [m];
    }
  }

  // An owner with its latch set loses the slot by exactly these events, and otherwise keeps
  // slot and latch.
  lemma StepEvicts(s: Pfic, e: Event, n: Irq)
    requires Owns(s, n) && ValidEvent(e)
    ensures if Evicts(s, e) then Step(s, e).slot != n else Owns(Step(s, e), n)
  {
    match e
    case Resync(who) => VisitsEvict(s, Members(who), n);
    case TimUpdate(tim) => VisitEvicts(s, n, TIM_IRQS[tim]);
    case EnableWrite(bits) =>
      VisitsEvict(s.(ienr := s.ienr + bits), Order(Changed(TABLE, bits - s.ienr)), n);
    case DisableWrite(bits) =>
      VisitsEvict(s.(ienr := s.ienr - bits), Order(Changed(TABLE, bits * s.ienr)), n);
    case DmaAck(controller, flags) => ControllerIrqs(controller);
    case Mret => MretKeepsOwnerIff(s);
    case _ =>
  }

  lemma ControllerIrqs(controller: Controller)
    ensures forall n :: n in controller.Irqs() ==> KindOf(n) == Dma
  {
  }

  // An injection leaves its source in the slot with its latch set.
  lemma InjectedOwns(s: Pfic, e: Event, n: Irq)
    requires ValidEvent(e) && KindOf(n) == Latched && Injected(s, Step(s, e), n)
    ensures Owns(Step(s, e), n)
  {
    StepKeepsLatchRule(s, e, n);
    match e
    case Resync(who) => VisitsInject(s, Members(who), n);
    case TimUpdate(tim) => VisitInjects(s, n, TIM_IRQS[tim]);
    case EnableWrite(bits) =>
      VisitsInject(s.(ienr := s.ienr + bits), Order(Changed(TABLE, bits - s.ienr)), n);
    case DisableWrite(bits) =>
      VisitsInject(s.(ienr := s.ienr - bits), Order(Changed(TABLE, bits * s.ienr)), n);
    case _ =>
  }

  lemma HandoverInjects(s: Pfic, n: Irq)
    requires KindOf(n) == Latched && Injected(s, Handover(Release(s)), n)
    ensures Handover(Release(s)).slot == n && Handover(Release(s)).meip
  {
    FirstWants(Release(s), Order(TABLE));
  }

  lemma VisitInjects(s: Pfic, n: Irq, m: Irq)
    requires KindOf(n) == Latched && Injected(s, Visit(s, m), n)
    ensures Visit(s, m).slot == n && Visit(s, m).meip
  {
    if Visit(s, m).claims == Handover(Release(s)).claims && !Wants(s, m) {
      HandoverInjects(s, n);
    }
  }

  lemma {:induction false} VisitsInject(s: Pfic, order: seq<Irq>, n: Irq)
    requires KindOf(n) == Latched && Injected(s, Visits(s, order), n)
    ensures Owns(Visits(s, order), n)
  {
    if order != [] {
      var front, m := order[..|order| - 1], order[|order| - 1];
      var t := Visits(s, front);
      VisitsKeepLatchRule(s, order);
      VisitsKeepLatchRule(s, front);
      VisitKeepsLatchRule(t, m);
      if Injected(t, Visit(t, m), n) {
        VisitInjects(t, n, m);
      } else {
        VisitsInject(s, front, n);
        assert !Withdraws(t, [m]);
        VisitEvicts(t, n, m);
      }
    }
  }

  // ----- Runs --------------------------------------------------------------------------

  // A source owns the slot from state i through state k.
  ghost predicate Held(states: seq<Pfic>, events: seq<Event>, n: Irq, i: nat, k: nat)
    requires Run(states, events) && i <= k < |states|
    decreases k
  {
    Owns(states[k], n) &&
    (i < k ==> Held(states, events, n, i, k - 1) && !Evicts(states[k - 1], events[k - 1]))
  }

  // The source of an injection owns the slot from then on up to the event that evicts it, if
  // there is one before state j.
  lemma {:induction false} OwnsUntil(states: seq<Pfic>, events: seq<Event>, n: Irq, i: nat, j: nat) returns (k: nat)
    requires Run(states, events) && i < j < |states|
    requires KindOf(n) == Latched && Injected(states[i], states[i + 1], n)
    ensures i < k <= j && Held(states, events, n, i + 1, k)
    ensures k < j ==> Evicts(states[k], events[k]) && states[k + 1].slot != n
    decreases j
  {
    if j == i + 1 {
      InjectedOwns(states[i], events[i], n);
      k := j;
    } else {
      k := OwnsUntil(states, events, n, i, j - 1);
      if k == j - 1 {
        StepEvicts(states[k], events[k], n);
        if !Evicts(states[k], events[k]) { k := j; }
      }
    }
  }

  // The CPU takes no interrupt inside a vectored handler, so a handler is entered only at
  // depth 0; and it leaves only what it entered.
  ghost predicate Unnested(states: seq<Pfic>, events: seq<Event>)
    requires |states| == |events| + 1
  {
    forall i {:trigger events[i]} :: 0 <= i < |events| ==>
      (events[i] == Trap ==> states[i].inIsr == 0) && (events[i] == Mret ==> states[i].inIsr > 0)
  }

  // A handler was entered between states i and k.
  predicate Entered(events: seq<Event>, i: nat, k: nat)
    requires i <= k <= |events|
    decreases k
  {
    i < k && (events[k - 1] == Trap || Entered(events, i, k - 1))
  }

  lemma {:induction false} DepthUntil(states: seq<Pfic>, events: seq<Event>, n: Irq, i: nat, k: nat)
    requires Run(states, events) && Unnested(states, events) && i <= k < |states|
    requires Held(states, events, n, i, k)
    ensures states[k].inIsr >= states[i].inIsr
    ensures states[k].inIsr > states[i].inIsr <==> Entered(events, i, k)
    ensures states[i].inIsr > 0 ==> !Entered(events, i, k)
    decreases k
  {
    if i < k {
      DepthUntil(states, events, n, i, k - 1);
      DepthKept(states[k - 1], events[k - 1]);
    }
  }

  lemma DepthKept(s: Pfic, e: Event)
    requires ValidEvent(e) && e != Mret && e != MachineReset
    ensures Step(s, e).inIsr == if e == Trap then s.inIsr + 1 else s.inIsr
  {
    match e
    case Resync(who) => VisitsKeepLatchRule(s, Members(who));
    case TimUpdate(tim) => VisitKeepsLatchRule(s, TIM_IRQS[tim]);
    case EnableWrite(bits) =>
      VisitsKeepLatchRule(s.(ienr := s.ienr + bits), Order(Changed(TABLE, bits - s.ienr)));
    case DisableWrite(bits) =>
      VisitsKeepLatchRule(s.(ienr := s.ienr - bits), Order(Changed(TABLE, bits * s.ienr)));
    case _ =>
  }

  // An injection that a trap return evicts had its handler entered before, exactly when it
  // was made outside every handler.  One made while a handler runs is lost when that returns.
  lemma TakenIff(states: seq<Pfic>, events: seq<Event>, n: Irq, i: nat, k: nat)
    requires Run(states, events) && Unnested(states, events) && i < k < |events| && events[k] == Mret
    requires KindOf(n) == Latched && Injected(states[i], states[i + 1], n)
    requires Held(states, events, n, i + 1, k)
    ensures states[k + 1].slot != n
    ensures Entered(events, i + 1, k) <==> states[i + 1].inIsr == 0
  {
    DepthUntil(states, events, n, i + 1, k);
    StepEvicts(states[k], events[k], n);
  }

  // A lost injection is not made up for: while the source goes on requesting it is not
  // injected again.
  lemma LostUntilWithdrawn(states: seq<Pfic>, events: seq<Event>, n: Irq, k: nat, j: nat)
    requires Run(states, events) && k < j < |events| && Owns(states[k], n) && events[k] == Mret
    requires forall m :: k < m <= j ==> !Withdrawn(states, events, n, m)
    ensures n in states[k + 1].active && !Injected(states[j], states[j + 1], n)
  {
    assert !Withdrawn(states, events, n, k + 1);
    StepKeepsLatchRule(states[k], events[k], n);
    LatchHolds(states, events, n, k + 1, j);
    StepKeepsLatchRule(states[j], events[j], n);
  }
}
