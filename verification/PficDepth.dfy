// The handler depth, from the traps and trap returns of a run alone, and what it decides:
// whether a USART that withdraws passes the slot on.
module PficDepth {
  import opened PficDelivery
  import opened PficModel
  import opened PficRuns
  import opened PficService
  import opened PficSoftware
  import opened PficTheorems

  // How often an event occurs from index i up to k.
  function Count(events: seq<Event>, e: Event, i: nat, k: nat): nat
    requires i <= k <= |events|
    decreases k
  {
    if i == k then 0 else Count(events, e, i, k - 1) + if events[k - 1] == e then 1 else 0
  }

  // Traps minus trap returns.
  function Balance(events: seq<Event>, i: nat, k: nat): int
    requires i <= k <= |events|
  {
    Count(events, Trap, i, k) - Count(events, Mret, i, k)
  }

  // No trap return from i up to k lacks its trap, when depth handlers are running at i.
  ghost predicate Matched(events: seq<Event>, depth: nat, i: nat, k: nat)
    requires i <= k <= |events|
  {
    forall j :: i <= j <= k ==> depth + Balance(events, i, j) >= 0
  }

  ghost predicate NoReset(events: seq<Event>, i: nat, k: nat)
    requires i <= k <= |events|
  {
    forall j :: i <= j < k ==> events[j] != MachineReset
  }

  lemma StepDepth(s: Pfic, e: Event)
    requires ValidEvent(e)
    ensures Step(s, e).inIsr ==
            match e
            case Trap => s.inIsr + 1
            case Mret => if s.inIsr == 0 then 0 else s.inIsr - 1
            case MachineReset => 0
            case _ => s.inIsr
  {
    if e != Mret && e != MachineReset { DepthKept(s, e); }
  }

  // In every run the depth is the number of traps minus the number of their returns.
  lemma {:induction false} DepthCounts(states: seq<Pfic>, events: seq<Event>, i: nat, k: nat)
    requires Run(states, events) && i <= k < |states|
    requires NoReset(events, i, k) && Matched(events, states[i].inIsr, i, k)
    ensures states[k].inIsr == states[i].inIsr + Balance(events, i, k)
    decreases k
  {
    if i < k {
      DepthCounts(states, events, i, k - 1);
      StepDepth(states[k - 1], events[k - 1]);
      assert states[i].inIsr + Balance(events, i, k) >= 0;
    }
  }

  // A machine reset makes it 0.
  lemma DepthAfterReset(states: seq<Pfic>, events: seq<Event>, k: nat)
    requires Run(states, events) && k < |events| && events[k] == MachineReset
    ensures states[k + 1].inIsr == 0
  {
    StepDepth(states[k], events[k]);
  }

  // Once every handler entered since power-on or reset has returned, a USART that owns the
  // slot without requesting, and is resynchronised, leaves it to the first eligible client,
  // or free if there is none.
  lemma UsartPassesOn(states: seq<Pfic>, events: seq<Event>, i: nat, k: nat, who: Client)
    requires Run(states, events) && i <= k < |events| && events[k] == Resync(who)
    requires states[i].inIsr == 0 && NoReset(events, i, k) && Matched(events, 0, i, k) && Balance(events, i, k) == 0
    requires KindOf(states[k].slot) == Level && states[k].slot in Members(who) && !Wants(states[k], states[k].slot)
    ensures var t := states[k + 1];
            if t.slot == FREE then NoneEligible(states[k]) else FirstEligible(states[k], t.slot)
  {
    var s := states[k];
    DepthCounts(states, events, i, k);
    assert GivesUp(s, s.slot) && !SwitchedOff(s, s.slot);
    OwnerGivesUp(s, Members(who));
    NobodyEligible(s);
    var f := FirstIsFirst(s, Order(TABLE));
    if f < |Order(TABLE)| { assert Eligible(s, Order(TABLE)[f]); }
  }
}
