// Properties of every step and of every run of the slot arbitration.
module PficRuns {
  import opened PficModel
  import opened PficTheorems

  // ----- The hand-over at trap return --------------------------------------------------

  // w is the first client in table order that would take a free slot.
  ghost predicate FirstEligible(s: Pfic, w: Irq) {
    exists i :: 0 <= i < |Order(TABLE)| && Order(TABLE)[i] == w && Eligible(s, w) &&
                forall j :: 0 <= j < i ==> !Eligible(s, Order(TABLE)[j])
  }

  ghost predicate NoneEligible(s: Pfic) {
    forall j :: 0 <= j < |Order(TABLE)| ==> !Eligible(s, Order(TABLE)[j])
  }

  // The slot after a trap return: the first eligible client in table order; failing
  // that the lowest software-pended interrupt, whose pending bit is consumed; else free.
  lemma MretHandsOver(s: Pfic)
    requires s.slot != FREE
    ensures var t := MretSpec(s);
            || (FirstEligible(s, t.slot) && t.meip && t.ipr == s.ipr + WantingDma(s))
            || (NoneEligible(s) && SoftwareCandidates(s) != {} &&
                t.slot == Lowest(SoftwareCandidates(s)) && t.meip && t.ipr == s.ipr - {t.slot})
            || (NoneEligible(s) && SoftwareCandidates(s) == {} &&
                t.slot == FREE && !t.meip && t.ipr == s.ipr)
  {
    var free := Release(Returned(s));
    var h := Handover(free);
    var i := FirstIsFirst(free, Order(TABLE));
    forall n ensures Eligible(free, n) == Eligible(s, n) { }
    if i < |Order(TABLE)| {
      assert Eligible(s, Order(TABLE)[i]);
      assert WantingDma(free) == WantingDma(s);
    } else {
      NoDmaWants(s);
      assert WantingDma(free) == WantingDma(s);
      assert h.ipr == s.ipr;
      assert SoftwareCandidates(h) == SoftwareCandidates(s);
    }
  }

  lemma NoDmaWants(s: Pfic)
    requires NoneEligible(s)
    ensures WantingDma(s) == {}
  {
    forall n | KindOf(n) == Dma ensures !Wants(s, n) {
      DmaMembers(n);
      TableOrder();
      assert n in Order(TABLE);
      var j :| 0 <= j < |Order(TABLE)| && Order(TABLE)[j] == n;
      assert !Eligible(s, Order(TABLE)[j]);
    }
  }

  // A client that owns the slot when some handler returns keeps it exactly when it is itself
  // the first eligible one.  A timer or ETH block whose latch is set is not eligible: the
  // latch survives the return, so it loses the slot.
  lemma MretKeepsOwnerIff(s: Pfic)
    requires KindOf(s.slot) != NoClient
    ensures MretSpec(s).slot == s.slot <==> First(s, Order(TABLE)) == s.slot
    ensures Guarded(s.slot) && s.slot in s.active ==> MretSpec(s).slot != s.slot
    ensures Guarded(s.slot) && s.slot in s.active && Present(s, s.slot) && Wants(s, s.slot) ==>
              s.slot in MretSpec(s).active
  {
    var free := Release(Returned(s));
    FreedFirst(s);
    HandoverOutcome(free);
    FirstWants(s, Order(TABLE));
    if First(s, Order(TABLE)) == FREE { SoftwareNotClient(Handover(free)); }
    assert s.slot in s.active && Wants(s, s.slot) ==> s.slot in Handover(free).active;
  }

  lemma SoftwareNotClient(s: Pfic)
    requires s.slot == FREE
    ensures KindOf(SoftwarePending(s).slot) == NoClient
  {
  }

  // A client that no longer requests passes its slot on just as a trap return does; but a
  // USART inside a handler only masks MEIP and keeps the slot, and a USB host that was
  // switched off frees it without rescanning.
  lemma WithdrawalHandsOver(s: Pfic, n: Irq)
    requires s.slot == n && n != FREE && Present(s, n) && !Wants(s, n)
    requires KindOf(n) != NoClient && KindOf(n) != Dma
    ensures var t := Visit(s, n);
            if KindOf(n) == Level && s.inIsr > 0 then t == s.(meip := false)
            else if KindOf(n) == Usb && (n !in s.host || n !in s.ienr) then t == Release(s)
            else FirstEligible(s, t.slot) || (NoneEligible(s) && t.slot == FREE && !t.meip)
  {
    var free := Release(s);
    var i := FirstIsFirst(free, Order(TABLE));
    forall m ensures Eligible(free, m) == Eligible(s, m) { }
    if i < |Order(TABLE)| { assert Eligible(s, Order(TABLE)[i]); }
  }

  // ----- Invariant ---------------------------------------------------------------------

  ghost predicate Inv(s: Pfic) {
    && (s.slot == FREE ==> !s.meip)
    && forall n: Irq :: n != FREE && KindOf(n) != Dma ==> (n in s.iactr <==> n == s.slot)
  }

  lemma HandoverKeepsInv(s: Pfic)
    requires Inv(s) && s.slot == FREE
    ensures Inv(Handover(s))
  {
  }

  lemma ReleaseKeepsInv(s: Pfic)
    requires Inv(s)
    ensures Inv(Release(s))
  {
  }

  lemma VisitKeepsInv(s: Pfic, n: Irq)
    requires Inv(s)
    ensures Inv(Visit(s, n))
  {
    ReleaseKeepsInv(s);
    HandoverKeepsInv(Release(s));
  }

  lemma {:induction false} VisitsKeepInv(s: Pfic, order: seq<Irq>)
    requires Inv(s)
    ensures Inv(Visits(s, order))
  {
    if order != [] {
      VisitsKeepInv(s, order[..|order| - 1]);
      VisitKeepsInv(Visits(s, order[..|order| - 1]), order[|order| - 1]);
    }
  }

  // Injecting interrupt 0, which reads as "slot free", is one of two ways out of the
  // invariant; a machine reset under a non-USART owner with MEIP up is the other.
  predicate Breaks(s: Pfic, e: Event) {
    match e
    case PendWrite(bits) => s.slot == FREE && FREE in s.ienr && FREE in bits
    case Mret => s.slot != FREE && First(s, Order(TABLE)) == FREE && FREE in s.ipr && FREE in s.ienr
    case MachineReset => s.meip && KindOf(s.slot) != Level
    case _ => false
  }

  lemma StepKeepsInv(s: Pfic, e: Event)
    requires Inv(s) && ValidEvent(e)
    ensures Inv(Step(s, e)) <==> !Breaks(s, e)
  {
    match e
    case Resync(who) => VisitsKeepInv(s, Members(who));
    case TimUpdate(tim) => VisitKeepsInv(s, TIM_IRQS[tim]);
    case EnableWrite(bits) =>
      VisitsKeepInv(s.(ienr := s.ienr + bits), Order(Changed(TABLE, bits - s.ienr)));
    case DisableWrite(bits) =>
      VisitsKeepInv(s.(ienr := s.ienr - bits), Order(Changed(TABLE, bits * s.ienr)));
    case Mret => MretKeepsInv(s);
    case PendWrite(bits) => PendKeepsInv(s, bits);
    case _ =>
  }

  lemma PendKeepsInv(s: Pfic, bits: set<Irq>)
    requires Inv(s)
    ensures Inv(PendWriteSpec(s, bits)) <==> !Breaks(s, PendWrite(bits))
  {
    var p := s.(ipr := s.ipr + bits);
    var enabled := (p.ienr * bits) - {SOFTWARE_IRQ};
    assert FREE in s.ienr && FREE in bits <==> FREE in enabled;
    if enabled != {} && s.slot == FREE {
      var n := Lowest(enabled);
      assert n == FREE <==> FREE in enabled;
      assert PendWriteSpec(s, bits) == Inject(p, n);
      InjectKeepsInv(p, n);
    }
  }

  lemma InjectKeepsInv(s: Pfic, n: Irq)
    requires Inv(s) && s.slot == FREE
    ensures Inv(Inject(s, n)) <==> n != FREE
  {
  }

  lemma SoftwareKeepsInv(s: Pfic)
    requires Inv(s)
    ensures Inv(SoftwarePending(s)) <==> !(s.slot == FREE && FREE in SoftwareCandidates(s))
  {
  }

  lemma MretKeepsInv(s: Pfic)
    requires Inv(s)
    ensures Inv(MretSpec(s)) <==> !Breaks(s, Mret)
  {
    if s.slot != FREE {
      ReleaseKeepsInv(Returned(s));
      HandoverKeepsInv(Release(Returned(s)));
      SoftwareKeepsInv(Handover(Release(Returned(s))));
      FreedFirst(s);
      HandoverOutcome(Release(Returned(s)));
    }
  }

  // Releasing the slot changes nobody's eligibility.
  lemma FreedFirst(s: Pfic)
    ensures First(Release(Returned(s)), Order(TABLE)) == First(s, Order(TABLE))
  {
    var free := Release(Returned(s));
    forall n ensures Eligible(free, n) == Eligible(s, n) { }
    SameFirst(free, s, Order(TABLE));
  }

  // A hand-over leaves the slot free exactly when nobody was eligible.
  lemma HandoverOutcome(free: Pfic)
    requires free.slot == FREE
    ensures Handover(free).slot == First(free, Order(TABLE))
    ensures FREE in SoftwareCandidates(Handover(free)) <==> FREE in free.ipr && FREE in free.ienr
  {
  }

  lemma {:induction false} SameFirst(s: Pfic, t: Pfic, order: seq<Irq>)
    requires forall n :: Eligible(s, n) == Eligible(t, n)
    ensures First(s, order) == First(t, order)
  {
    if order != [] { SameFirst(s, t, order[1..]); }
  }

  // A client that does not own the occupied slot leaves slot, MEIP and IACTR alone.
  lemma NonOwnerIsHarmless(s: Pfic, n: Irq)
    requires s.slot != FREE && s.slot != n
    ensures Visit(s, n).slot == s.slot && Visit(s, n).meip == s.meip && Visit(s, n).iactr == s.iactr
  {
  }

  // ----- Runs --------------------------------------------------------------------------

  ghost predicate Run(states: seq<Pfic>, events: seq<Event>) {
    && |states| == |events| + 1
    && forall i {:trigger events[i]} :: 0 <= i < |events| ==>
         ValidEvent(events[i]) && states[i + 1] == Step(states[i], events[i])
  }

  const POWER_ON: Pfic := Pfic(RESET_IENR, {}, {}, FREE, false, 0, {}, {}, {}, {}, {}, {}, [])

  lemma {:induction false} RunsKeepInv(states: seq<Pfic>, events: seq<Event>, k: nat)
    requires Run(states, events) && Inv(states[0]) && k < |states|
    requires forall i :: 0 <= i < k ==> !Breaks(states[i], events[i])
    ensures Inv(states[k])
  {
    if k > 0 {
      RunsKeepInv(states, events, k - 1);
      StepKeepsInv(states[k - 1], events[k - 1]);
    }
  }

  // ----- Storm guard -------------------------------------------------------------------

  ghost predicate SameEnvironment(s: Pfic, t: Pfic) {
    s.ienr == t.ienr && s.line == t.line && s.host == t.host && s.tcie == t.tcie &&
    s.tcif == t.tcif && s.present == t.present && s.inIsr == t.inIsr
  }

  // Injections logged between s and t.
  ghost predicate Injected(s: Pfic, t: Pfic, n: Irq) {
    |s.claims| <= |t.claims| && n in t.claims[|s.claims|..]
  }

  // What one client visit may do to the latches: an injection needs a live request and a
  // clear latch and sets it; a latch is cleared only when the request is gone.
  ghost predicate LatchRule(s: Pfic, t: Pfic) {
    && SameEnvironment(s, t)
    && s.claims <= t.claims
    && forall n :: KindOf(n) == Latched ==>
       && (Injected(s, t, n) ==> Wants(s, n) && n !in s.active && n in t.active)
       && (n in s.active && n !in t.active ==> !Wants(s, n))
  }

  lemma LatchRuleTransitive(s: Pfic, t: Pfic, u: Pfic)
    requires LatchRule(s, t) && LatchRule(t, u)
    ensures LatchRule(s, u)
  {
  }

  lemma HandoverKeepsLatchRule(s: Pfic)
    ensures LatchRule(s, Handover(Release(s)))
  {
    var free := Release(s);
    FirstWants(free, Order(TABLE));
    var t := Handover(free);
    assert t.claims == s.claims || t.claims == s.claims + [t.slot];
  }

  lemma ClaimKeepsLatchRule(s: Pfic, n: Irq)
    requires KindOf(n) == Latched ==> Wants(s, n) && n !in s.active
    ensures LatchRule(s, Claim(s, n))
  {
  }

  lemma WithdrawKeepsLatchRule(s: Pfic, t: Pfic, n: Irq)
    requires LatchRule(s, t) && !Wants(s, n)
    ensures LatchRule(s, t.(active := t.active - {n}))
  {
  }

  lemma VisitKeepsLatchRule(s: Pfic, n: Irq)
    ensures LatchRule(s, Visit(s, n))
  {
    HandoverKeepsLatchRule(s);
    if Visit(s, n).claims == s.claims && s.active <= Visit(s, n).active {
    } else if Guarded(n) && !Wants(s, n) {
      assert LatchRule(s, s);
      WithdrawKeepsLatchRule(s, if s.slot == n then Handover(Release(s)) else s, n);
    } else if Wants(s, n) {
      if KindOf(n) == Latched { ClaimKeepsLatchRule(s, n); }
    }
  }

  lemma {:induction false} VisitsKeepLatchRule(s: Pfic, order: seq<Irq>)
    ensures LatchRule(s, Visits(s, order))
  {
    if order != [] {
      var front := Visits(s, order[..|order| - 1]);
      VisitsKeepLatchRule(s, order[..|order| - 1]);
      VisitKeepsLatchRule(front, order[|order| - 1]);
      LatchRuleTransitive(s, front, Visits(s, order));
    }
  }

  lemma StepKeepsLatchRule(s: Pfic, e: Event, n: Irq)
    requires ValidEvent(e) && KindOf(n) == Latched
    ensures var t := Step(s, e);
            && s.claims <= t.claims
            && (Injected(s, t, n) ==> Wants(t, n) && n !in s.active && n in t.active)
            && (n in s.active && n !in t.active ==> !Wants(t, n) || e == MachineReset)
  {
    match e
    case Resync(who) => VisitsKeepLatchRule(s, Members(who));
    case TimUpdate(tim) => VisitKeepsLatchRule(s, TIM_IRQS[tim]);
    case EnableWrite(bits) =>
      VisitsKeepLatchRule(s.(ienr := s.ienr + bits), Order(Changed(TABLE, bits - s.ienr)));
    case DisableWrite(bits) =>
      VisitsKeepLatchRule(s.(ienr := s.ienr - bits), Order(Changed(TABLE, bits * s.ienr)));
    case Mret =>
      if s.slot != FREE {
        var free := Release(Returned(s));
        FirstWants(free, Order(TABLE));
        assert Handover(free).claims == s.claims || Handover(free).claims == s.claims + [Handover(free).slot];
      }
    case _ =>
  }

  // In state k, just after event k - 1, source n does not request, or was reset.
  ghost predicate Withdrawn(states: seq<Pfic>, events: seq<Event>, n: Irq, k: nat)
    requires 0 < k < |states| == |events| + 1
  {
    !Wants(states[k], n) || events[k - 1] == MachineReset
  }

  // After state i the latch of n stays set until the request is seen withdrawn.
  lemma {:induction false} LatchHolds(states: seq<Pfic>, events: seq<Event>, n: Irq, i: nat, j: nat)
    requires Run(states, events) && KindOf(n) == Latched && i <= j < |states|
    requires n in states[i].active
    requires forall k :: i < k <= j ==> !Withdrawn(states, events, n, k)
    ensures n in states[j].active
    decreases j
  {
    if i < j {
      LatchHolds(states, events, n, i, j - 1);
      assert !Withdrawn(states, events, n, j);
      StepKeepsLatchRule(states[j - 1], events[j - 1], n);
    }
  }

  // Two injections by the same timer, or by ETH, are separated by a moment at which that
  // source did not request, or by a machine reset.
  lemma StormGuard(states: seq<Pfic>, events: seq<Event>, n: Irq, i: nat, j: nat)
    requires Run(states, events) && KindOf(n) == Latched && i < j < |events|
    requires Injected(states[i], states[i + 1], n) && Injected(states[j], states[j + 1], n)
    ensures exists k :: i < k <= j && Withdrawn(states, events, n, k)
  {
    StepKeepsLatchRule(states[i], events[i], n);
    StepKeepsLatchRule(states[j], events[j], n);
    if forall k :: i < k <= j ==> !Withdrawn(states, events, n, k) {
      LatchHolds(states, events, n, i + 1, j);
    }
  }
}
