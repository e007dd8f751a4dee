// What the slot arbitration guarantees: the hand-over picks the first eligible client,
// the invariant of every run, and the storm guard of the latched clients.
module PficTheorems {
  import opened PficModel
  import opened Sequences

  // ----- Visiting orders ---------------------------------------------------------------

  lemma {:induction false} VisitsConcat(s: Pfic, a: seq<Irq>, b: seq<Irq>)
    ensures Visits(s, a + b) == Visits(Visits(s, a), b)
    decreases |b|
  {
    if b == [] {
      assert a + b == a;
    } else {
      var k := |b| - 1;
      VisitsConcat(s, a, b[..k]);
      assert (a + b)[..|a + b| - 1] == a + b[..k];
    }
  }

  lemma {:induction false} OrderConcat(t: seq<Entry>, u: seq<Entry>)
    ensures Order(t + u) == Order(t) + Order(u)
  {
    if t == [] {
      assert t + u == u;
    } else {
      OrderConcat(t[1..], u);
      TailOfConcat(t, u);
      ConcatAssociates(Members(t[0].who), Order(t[1..]), Order(u));
    }
  }

  lemma {:induction false} FirstConcat(s: Pfic, a: seq<Irq>, b: seq<Irq>)
    ensures First(s, a + b) == if First(s, a) != FREE then First(s, a) else First(s, b)
  {
    if a == [] {
      assert a + b == b;
    } else {
      FirstConcat(s, a[1..], b);
      assert (a + b)[1..] == a[1..] + b;
    }
  }

  // First really is the first: everything before it is not eligible.
  lemma {:induction false} FirstIsFirst(s: Pfic, order: seq<Irq>) returns (i: nat)
    ensures i <= |order|
    ensures forall j :: 0 <= j < i ==> !Eligible(s, order[j])
    ensures i < |order| ==> Eligible(s, order[i]) && First(s, order) == order[i]
    ensures i == |order| ==> First(s, order) == FREE
  {
    if order == [] || Eligible(s, order[0]) {
      i := 0;
    } else {
      var k := FirstIsFirst(s, order[1..]);
      i := k + 1;
      forall j | 0 <= j < i ensures !Eligible(s, order[j]) {
        if j > 0 { assert order[j] == order[1..][j - 1]; }
      }
    }
  }

  lemma FirstWants(s: Pfic, order: seq<Irq>)
    ensures First(s, order) != FREE ==> Eligible(s, First(s, order)) && First(s, order) in order
  {
  }

  // ----- A scan from a free slot -------------------------------------------------------

  // Pending bits that DMA channels of the order leave behind, visit by visit.
  function Pended(s: Pfic, order: seq<Irq>): set<Irq> {
    if order == [] then {}
    else
      var front, n := order[..|order| - 1], order[|order| - 1];
      Pended(s, front) +
      (if KindOf(n) == Dma && Wants(s, n) && First(s, front) != FREE then {n} else {})
  }

  // The state reached by visiting the given clients, starting with a free slot.
  function Scanned(s: Pfic, order: seq<Irq>): Pfic {
    var w := First(s, order);
    var settled := s.(
      active := Settled(s, order),
      ipr := s.ipr + Pended(s, order));
    if w == FREE then settled else Claim(settled, w)
  }

  lemma {:induction false} ScanFromFree(s: Pfic, order: seq<Irq>)
    requires s.slot == FREE
    ensures Visits(s, order) == Scanned(s, order)
  {
    if order == [] {
      assert Scanned(s, order).active == s.active;
      assert Scanned(s, order).ipr == s.ipr;
    } else {
      var front, n := order[..|order| - 1], order[|order| - 1];
      ScanFromFree(s, front);
      ScanStep(s, front, n);
      assert order == front + [n];
    }
  }

  lemma ScanStep(s: Pfic, front: seq<Irq>, n: Irq)
    requires s.slot == FREE
    ensures Visit(Scanned(s, front), n) == Scanned(s, front + [n])
  {
    FirstWants(s, front);
    FirstConcat(s, front, [n]);
    if KindOf(n) == Dma {
      ScanDma(s, front, n);
    } else if First(s, front) == FREE && Eligible(s, n) {
      ScanClaim(s, front, n);
    } else {
      ScanOther(s, front, n);
    }
  }

  lemma PendedSnoc(s: Pfic, front: seq<Irq>, n: Irq)
    ensures Pended(s, front + [n]) ==
            if KindOf(n) == Dma && Wants(s, n) && First(s, front) != FREE
            then Pended(s, front) + {n} else Pended(s, front)
  {
  }

  function Settled(s: Pfic, order: seq<Irq>): set<Irq> {
    set n | n in s.active && (n in order && Guarded(n) && Present(s, n) ==> Wants(s, n))
  }

  lemma SettledSnoc(s: Pfic, front: seq<Irq>, n: Irq)
    ensures Settled(s, front + [n]) ==
            if Guarded(n) && Present(s, n) && !Wants(s, n) then Settled(s, front) - {n} else Settled(s, front)
  {
  }

  lemma ScanDma(s: Pfic, front: seq<Irq>, n: Irq)
    requires s.slot == FREE && KindOf(n) == Dma
    requires First(s, front + [n]) == if First(s, front) != FREE then First(s, front) else First(s, [n])
    ensures Visit(Scanned(s, front), n) == Scanned(s, front + [n])
  {
    PendedSnoc(s, front, n);
    SettledSnoc(s, front, n);
    var m, goal := Scanned(s, front), Scanned(s, front + [n]);
    assert Wants(m, n) == Wants(s, n);
    assert goal.active == m.active || First(s, front) == FREE;
    if !Wants(s, n) {
      assert goal.ipr == m.ipr;
    } else if First(s, front) != FREE {
      assert goal.ipr == m.ipr + {n};
    } else {
      assert goal.ipr == m.ipr;
    }
  }

  lemma ScanClaim(s: Pfic, front: seq<Irq>, n: Irq)
    requires s.slot == FREE && First(s, front) == FREE && Eligible(s, n) && KindOf(n) != Dma
    requires First(s, front + [n]) == n
    ensures Visit(Scanned(s, front), n) == Scanned(s, front + [n])
  {
    PendedSnoc(s, front, n);
    SettledSnoc(s, front, n);
    var m := Scanned(s, front);
    assert Eligible(m, n);
    assert Visit(m, n) == Claim(m, n);
  }

  lemma ScanOther(s: Pfic, front: seq<Irq>, n: Irq)
    requires s.slot == FREE && KindOf(n) != Dma
    requires First(s, front) != FREE || !Eligible(s, n)
    requires First(s, front) != FREE ==> Eligible(s, First(s, front))
    requires First(s, front + [n]) == First(s, front)
    ensures Visit(Scanned(s, front), n) == Scanned(s, front + [n])
  {
    PendedSnoc(s, front, n);
    SettledSnoc(s, front, n);
    var m := Scanned(s, front);
    if Guarded(n) && Present(s, n) && !Wants(s, n) {
      ScanWithdrawn(s, front, n);
    } else {
      assert Scanned(s, front + [n]) == m;
      SettledVisit(m, n);
    }
  }

  lemma ScanWithdrawn(s: Pfic, front: seq<Irq>, n: Irq)
    requires s.slot == FREE && Guarded(n) && Present(s, n) && !Wants(s, n)
    requires First(s, front) != FREE ==> Eligible(s, First(s, front))
    requires First(s, front + [n]) == First(s, front)
    requires Pended(s, front + [n]) == Pended(s, front)
    requires Settled(s, front + [n]) == Settled(s, front) - {n}
    ensures Visit(Scanned(s, front), n) == Scanned(s, front + [n])
  {
    var m, w := Scanned(s, front), First(s, front);
    assert w != n && m.slot != n;
    assert Visit(m, n) == m.(active := m.active - {n});
    assert (Settled(s, front) - {n}) + {w} == (Settled(s, front) + {w}) - {n};
  }

  // A visit that finds nothing to do.
  lemma SettledVisit(m: Pfic, n: Irq)
    requires KindOf(n) != Dma
    requires m.slot == n && n != FREE ==> m.meip && n in m.iactr && Wants(m, n) && (Guarded(n) ==> n in m.active)
    requires Guarded(n) && Present(m, n) && !Wants(m, n) ==> n !in m.active
    requires m.slot == FREE ==> !Eligible(m, n)
    ensures Visit(m, n) == m
  {
  }

  // ----- The whole table ---------------------------------------------------------------

  lemma {:induction false} PendedOnlyWanting(s: Pfic, order: seq<Irq>)
    ensures Pended(s, order) <= WantingDma(s)
  {
    if order != [] { PendedOnlyWanting(s, order[..|order| - 1]); }
  }

  lemma {:induction false} PendedHas(s: Pfic, order: seq<Irq>, k: nat)
    requires k < |order| && KindOf(order[k]) == Dma && Wants(s, order[k])
    requires First(s, order[..k]) != FREE
    ensures order[k] in Pended(s, order)
  {
    var front := order[..|order| - 1];
    if k < |front| {
      assert front[..k] == order[..k];
      PendedHas(s, front, k);
    }
  }

  lemma DmaMembers(n: Irq)
    ensures KindOf(n) == Dma <==> n in DMA_IRQS
  {
    if KindOf(n) == Dma {
      var k := if n <= 33 then n - 27 else if n <= 76 then n - 65 else n - 86;
      assert DMA_IRQS[k] == n;
    }
  }

  // The DMA channels are visited four times.
  lemma TableOrder()
    ensures Order(TABLE) == Order(FRONT_TABLE) + DMA_IRQS + DMA_IRQS + DMA_IRQS + DMA_IRQS
  {
    OrderConcat(FRONT_TABLE, DMA_TABLE);
    var d := DMA_TABLE;
    assert d[1..][1..] == d[2..] && d[2..][1..] == d[3..] && d[3..][1..] == [];
    assert Order(d[3..]) == DMA_IRQS + [] == DMA_IRQS;
    assert Order(d) == DMA_IRQS + (DMA_IRQS + (DMA_IRQS + DMA_IRQS));
  }

  lemma PendedByTable(s: Pfic)
    ensures Pended(s, Order(TABLE)) == WantingDma(s)
  {
    PendedOnlyWanting(s, Order(TABLE));
    TableOrder();
    var front := Order(FRONT_TABLE);
    var twice := front + DMA_IRQS + DMA_IRQS;
    forall n | n in WantingDma(s) ensures n in Pended(s, Order(TABLE)) {
      DmaMembers(n);
      PendedTwice(s, front, DMA_IRQS, n);
      PendedGrows(s, twice, DMA_IRQS + DMA_IRQS);
      assert twice + (DMA_IRQS + DMA_IRQS) == Order(TABLE);
    }
  }

  // On its second visit a requesting channel finds the slot taken.
  lemma PendedTwice(s: Pfic, front: seq<Irq>, dma: seq<Irq>, n: Irq)
    requires n in dma && KindOf(n) == Dma && Wants(s, n)
    ensures n in Pended(s, front + dma + dma)
  {
    var k :| 0 <= k < |dma| && dma[k] == n;
    var order, at := front + dma + dma, |front| + |dma| + k;
    assert order[at] == n && order[..at] == front + dma + dma[..k];
    var i := FirstIsFirst(s, order[..at]);
    assert order[..at][|front| + k] == n;
    PendedHas(s, order, at);
  }

  lemma {:induction false} PendedGrows(s: Pfic, a: seq<Irq>, b: seq<Irq>)
    ensures Pended(s, a) <= Pended(s, a + b)
    decreases |b|
  {
    if b == [] {
      assert a + b == a;
    } else {
      PendedGrows(s, a, b[..|b| - 1]);
      assert (a + b)[..|a + b| - 1] == a + b[..|b| - 1];
    }
  }

  // The scan of the whole table refines the simple hand-over.
  lemma RescanIsHandover(s: Pfic)
    requires s.slot == FREE
    ensures Visits(s, Order(TABLE)) == Handover(s)
  {
    ScanFromFree(s, Order(TABLE));
    PendedByTable(s);
    forall n | Guarded(n) ensures n in Order(TABLE) { GuardedInTable(n); }
    assert Scanned(s, Order(TABLE)).active == Handover(s).active;
  }

  lemma GuardedInTable(n: Irq)
    requires Guarded(n)
    ensures n in Order(TABLE)
  {
    OrderConcat(FRONT_TABLE, DMA_TABLE);
    var k := if n in TIM_IRQS then 4 else if n == ETH10M_IRQ then 5 else 7;
    assert n in Members(FRONT_TABLE[k].who) by {
      if k == 4 {
        assert TIM_IRQS == [44, 45, 46, 66, 70, 71];
      }
    }
    InOrder(FRONT_TABLE, k, n);
  }

  lemma {:induction false} InOrder(t: seq<Entry>, k: nat, n: Irq)
    requires k < |t| && n in Members(t[k].who)
    ensures n in Order(t)
  {
    if k > 0 { InOrder(t[1..], k - 1, n); }
  }
}
