// What the two ends of the USART pipelines see: the bytes that firmware and memory are given,
// and how far every timer event brings a waiting byte.
module UsartDelivery {
  import opened Basics
  import opened DmaEngine
  import opened Sequences
  import opened UsartModel

  // ----- What is given out -------------------------------------------------------------

  // Memory after an event.
  function BusAfter(bus: Bus, s: Usart, e: Event): Bus {
    if e.FeedTimer? then
      match Pumped(s.control, s.channel, s.rx)
      case None => bus
      case Some(b) => Stored(bus, s.channel, b)
    else bus
  }

  // The tick pumps a byte to memory.
  predicate PumpsAt(s: Usart, e: Event) {
    e.FeedTimer? && Pumped(s.control, s.channel, s.rx).Some?
  }

  // A pumped byte has memory to go to.
  predicate Lands(bus: Bus, s: Usart, e: Event) {
    PumpsAt(s, e) ==> s.channel.maddr in bus
  }

  // The byte that firmware reads, and the byte that memory then holds at MADDR.
  function Taken(bus: Bus, s: Usart, e: Event): seq<byte>
    requires Lands(bus, s, e)
  {
    if e.ReadDatar? && s.rx.pending then [ReadData(s.rx).0]
    else if PumpsAt(s, e) then [StoredThere(bus, s, e)]
    else []
  }

  function StoredThere(bus: Bus, s: Usart, e: Event): byte
    requires PumpsAt(s, e) && s.channel.maddr in bus
  {
    assert BusAfter(bus, s, e).Keys == bus.Keys;
    BusAfter(bus, s, e)[s.channel.maddr]
  }

  lemma StepTakes(bus: Bus, s: Usart, e: Event)
    requires RxInv(s.rx) && Lands(bus, s, e)
    ensures Step(s, e).rx.consumed == if e == Reset then [] else s.rx.consumed + Taken(bus, s, e)
  {
    match e
    case FeedTimer =>
      if PumpsAt(s, e) { assert StoredThere(bus, s, e) == Feed(s.rx).fifo[0]; }
    case _ =>
  }

  // All that was taken since the last reset, in the order of the events; before[i] is memory
  // just before event i.
  function TakenSince(before: seq<Bus>, states: seq<Usart>, events: seq<Event>, k: nat): seq<byte>
    requires k <= |events| <= |states| && |events| <= |before|
    requires forall i :: 0 <= i < k ==> Lands(before[i], states[i], events[i])
  {
    if k == 0 || events[k - 1] == Reset then []
    else TakenSince(before, states, events, k - 1) + Taken(before[k - 1], states[k - 1], events[k - 1])
  }

  // In every run, what firmware has read and memory was given, in that order, and then what is
  // queued and staged, is what was taken in.
  lemma {:induction false} NothingWithheld(before: seq<Bus>, states: seq<Usart>, events: seq<Event>, k: nat)
    requires Run(states, events) && k < |states| && |before| == |events|
    requires forall i :: 0 <= i < k ==> Lands(before[i], states[i], events[i])
    ensures TakenSince(before, states, events, k) == states[k].rx.consumed
    ensures TakenSince(before, states, events, k) + states[k].rx.fifo + states[k].rx.stage == states[k].rx.staged
  {
    RunsKeepFlags(states, events, k);
    if k > 0 {
      NothingWithheld(before, states, events, k - 1);
      RunsKeepFlags(states, events, k - 1);
      RunStep(states, events, k - 1);
      StepTakes(before[k - 1], states[k - 1], events[k - 1]);
    }
  }

  // The oldest byte is what a read returns; with nothing received it returns 0.
  lemma ReadReturnsOldest(r: Rx)
    requires RxInv(r)
    ensures ReadData(r).0 == if r.fifo == [] then 0 else r.fifo[0]
    ensures ReadData(r).1.fifo == if r.fifo == [] then [] else r.fifo[1..]
  {
  }

  // ----- How far an event brings a byte ------------------------------------------------

  // Bytes that arrive are staged up to 63, when USART and receiver are on.
  lemma ReceiveTakes(c: Control, r: Rx, bytes: seq<byte>)
    requires |r.stage| <= 63
    ensures var k := if c.ue && c.re then Min(|bytes|, 63 - |r.stage|) else 0;
            Receive(c, r, bytes).stage == r.stage + bytes[..k] && Receive(c, r, bytes).staged == r.staged + bytes[..k]
  {
    assert r.stage + bytes[..0] == r.stage && r.staged + bytes[..0] == r.staged;
  }

  // The answer to the backend's question is true: a byte more is taken or not.
  lemma CanReceiveIff(c: Control, r: Rx, b: byte)
    requires |r.stage| <= 63 && c.ue && c.re
    ensures CanReceive(r) <==> Receive(c, r, [b]).staged == r.staged + [b]
  {
  }

  // The receive pump is set up: DMAR, an enabled channel with a count, pointed at DATAR.
  predicate SetUp(c: Control, ch: Channel) {
    c.dmar && ch.enabled && ch.count > 0 && 0x4001_3804 <= ch.paddr < 0x4001_3808
  }

  // Every tick moves the oldest staged byte on, unless the FIFO is full: into the FIFO, and
  // with the pump set up the FIFO's oldest byte to memory.
  lemma TickMoves(c: Control, ch: Channel, r: Rx)
    requires RxInv(r) && r.stage != []
    ensures var (t, after) := FeedTick(c, ch, r);
            var oldest := (r.fifo + r.stage)[0];
            if |r.fifo| == 63 then t.stage == r.stage && t.fifo == r.fifo && after == ch
            else
              && t.stage == r.stage[1..]
              && (if SetUp(c, ch) then
                    && t.fifo == (r.fifo + [r.stage[0]])[1..] && t.consumed == r.consumed + [oldest]
                    && after.count == ch.count - 1 && (after.enabled <==> ch.count > 1)
                  else t.fifo == r.fifo + [r.stage[0]] && t.consumed == r.consumed && after == ch)
  {
  }

  // k ticks, on receiver, channel and memory.
  function Ticks(c: Control, ch: Channel, r: Rx, bus: Bus, k: nat): (Rx, Channel, Bus) {
    if k == 0 then (r, ch, bus)
    else
      var (r0, ch0, bus0) := Ticks(c, ch, r, bus, k - 1);
      var s := Usart(c, ch0, r0, TX_RESET);
      var (r1, ch1) := FeedTick(c, ch0, r0);
      (r1, ch1, BusAfter(bus0, s, FeedTimer))
  }

  // Where the channel puts byte i.
  function PlaceOf(ch: Channel, i: nat): nat {
    Side(ch.maddr, ch.minc, UnitSize(ch.msize)).At(i)
  }

  // One tick with the pump set up and the FIFO empty.
  lemma TickPumps(c: Control, ch: Channel, r: Rx)
    requires RxInv(r) && r.fifo == [] && r.stage != [] && SetUp(c, ch)
    ensures Pumped(c, ch, r) == Some(r.stage[0])
    ensures var (r1, ch1) := FeedTick(c, ch, r);
            && r1.fifo == [] && r1.stage == r.stage[1..] && r1.consumed == r.consumed + [r.stage[0]] && RxInv(r1)
            && ch1 == ch.(count := ch.count - 1, enabled := ch.count > 1,
                          maddr := if ch.minc then (ch.maddr + UnitSize(ch.msize)) % WRAP else ch.maddr)
  {
    FeedTickKeeps(c, ch, r);
    assert Feed(r).fifo == [r.stage[0]];
  }

  lemma PlaceNext(ch: Channel, i: nat)
    ensures PlaceOf(ch, i + 1) == PlaceOf(ch, i) + if ch.minc then UnitSize(ch.msize) else 0
  {
  }

  // Receiver and channel after k such ticks.
  ghost predicate Emptied(ch: Channel, r: Rx, k: nat, r1: Rx, ch1: Channel) {
    && k <= |r.stage| && k <= ch.count
    && RxInv(r1) && r1.fifo == [] && r1.stage == r.stage[k..] && r1.consumed == r.consumed + r.stage[..k]
    && ch1 == ch.(count := ch.count - k, enabled := k < ch.count, maddr := PlaceOf(ch, k))
  }

  lemma EmptiedNext(c: Control, ch: Channel, r: Rx, k: nat, r1: Rx, ch1: Channel)
    requires Emptied(ch, r, k, r1, ch1) && k < |r.stage| && k < ch.count && SetUp(c, ch) && PlaceOf(ch, k + 1) < WRAP
    ensures Pumped(c, ch1, r1) == Some(r.stage[k])
    ensures Emptied(ch, r, k + 1, FeedTick(c, ch1, r1).0, FeedTick(c, ch1, r1).1)
  {
    PlaceNext(ch, k);
    assert r1.stage[0] == r.stage[k] && r1.stage[1..] == r.stage[k + 1..];
    TickPumps(c, ch1, r1);
    ConcatAssociates(r.consumed, r.stage[..k], [r.stage[k]]);
    assert r.stage[..k + 1] == r.stage[..k] + [r.stage[k]];
  }

  lemma {:induction false} PumpEmpties(c: Control, ch: Channel, r: Rx, bus: Bus, k: nat)
    requires RxInv(r) && r.fifo == [] && k <= |r.stage| && k <= ch.count && SetUp(c, ch)
    requires forall i :: 0 <= i <= k ==> PlaceOf(ch, i) < WRAP
    ensures Emptied(ch, r, k, Ticks(c, ch, r, bus, k).0, Ticks(c, ch, r, bus, k).1)
  {
    if k == 0 {
      assert r.stage[0..] == r.stage && r.consumed + r.stage[..0] == r.consumed;
    } else {
      var (r0, ch0, bus0) := Ticks(c, ch, r, bus, k - 1);
      PumpEmpties(c, ch, r, bus, k - 1);
      EmptiedNext(c, ch, r, k - 1, r0, ch0);
    }
  }

  // What the k-th tick stores.
  lemma TickStores(c: Control, ch: Channel, r: Rx, bus: Bus, k: nat)
    requires RxInv(r) && r.fifo == [] && k < |r.stage| && k < ch.count && SetUp(c, ch)
    requires forall i :: 0 <= i <= k + 1 ==> PlaceOf(ch, i) < WRAP
    ensures Ticks(c, ch, r, bus, k + 1).2 ==
            Stored(Ticks(c, ch, r, bus, k).2, ch.(maddr := PlaceOf(ch, k)), r.stage[k])
  {
    var (r0, ch0, bus0) := Ticks(c, ch, r, bus, k);
    PumpEmpties(c, ch, r, bus, k);
    EmptiedNext(c, ch, r, k, r0, ch0);
  }

  lemma StoredThen(bus: Bus, ch: Channel, b: byte, x: nat)
    requires x in bus
    ensures Stored(bus, ch, b).Keys == bus.Keys
    ensures x == ch.maddr ==> Stored(bus, ch, b)[x] == b
    ensures x < ch.maddr ==> Stored(bus, ch, b)[x] == bus[x]
  {
  }

  lemma TickThen(c: Control, ch: Channel, r: Rx, bus: Bus, k: nat, x: nat)
    requires RxInv(r) && r.fifo == [] && k < |r.stage| && k < ch.count && SetUp(c, ch)
    requires forall i :: 0 <= i <= k + 1 ==> PlaceOf(ch, i) < WRAP
    requires x in bus
    ensures var before, after := Ticks(c, ch, r, bus, k).2, Ticks(c, ch, r, bus, k + 1).2;
            && x in before && x in after
            && (x == PlaceOf(ch, k) ==> after[x] == r.stage[k])
            && (x < PlaceOf(ch, k) ==> after[x] == before[x])
  {
    TickStores(c, ch, r, bus, k);
    SameKeysAfter(c, ch, r, bus, k);
    StoredThen(Ticks(c, ch, r, bus, k).2, ch.(maddr := PlaceOf(ch, k)), r.stage[k], x);
  }

  lemma PlacesAscend(ch: Channel, i: nat, k: nat)
    requires ch.minc && i < k
    ensures PlaceOf(ch, i) < PlaceOf(ch, k)
  {
    AtAscends(Side(ch.maddr, ch.minc, UnitSize(ch.msize)), i, k);
  }

  // After k ticks staged byte i is where the channel puts it.
  predicate InPlace(c: Control, ch: Channel, r: Rx, bus: Bus, k: nat, i: nat)
    requires i < |r.stage|
  {
    var after := Ticks(c, ch, r, bus, k).2;
    PlaceOf(ch, i) in after && after[PlaceOf(ch, i)] == r.stage[i]
  }

  lemma FilledByTick(c: Control, ch: Channel, r: Rx, bus: Bus, k: nat, i: nat)
    requires RxInv(r) && r.fifo == [] && k < |r.stage| && k < ch.count && SetUp(c, ch)
    requires forall m :: 0 <= m <= k + 1 ==> PlaceOf(ch, m) < WRAP
    requires i <= k && PlaceOf(ch, i) in bus
    ensures i == k ==> InPlace(c, ch, r, bus, k + 1, i)
    ensures i < k && ch.minc && InPlace(c, ch, r, bus, k, i) ==> InPlace(c, ch, r, bus, k + 1, i)
  {
    TickThen(c, ch, r, bus, k, PlaceOf(ch, i));
    if i < k && ch.minc { PlacesAscend(ch, i, k); }
  }

  // With the pump set up and the FIFO empty, k ticks put the first k staged bytes into memory,
  // one after the other when the address moves on, else the last of them.
  lemma {:induction false} PumpFills(c: Control, ch: Channel, r: Rx, bus: Bus, k: nat, i: nat)
    requires RxInv(r) && r.fifo == [] && k <= |r.stage| && k <= ch.count && SetUp(c, ch)
    requires forall m :: 0 <= m <= k ==> PlaceOf(ch, m) < WRAP
    requires i < k && PlaceOf(ch, i) in bus && (ch.minc || i == k - 1)
    ensures InPlace(c, ch, r, bus, k, i)
    decreases k
  {
    if i < k - 1 { PumpFills(c, ch, r, bus, k - 1, i); }
    FilledByTick(c, ch, r, bus, k - 1, i);
  }

  lemma {:induction false} SameKeysAfter(c: Control, ch: Channel, r: Rx, bus: Bus, k: nat)
    ensures Ticks(c, ch, r, bus, k).2.Keys == bus.Keys
  {
    if k > 0 { SameKeysAfter(c, ch, r, bus, k - 1); }
  }

  // ----- Transmission ------------------------------------------------------------------

  // TXE says that a byte written now is taken: into an empty FIFO, or past it.
  lemma TxeIff(c: Control, t: Tx)
    requires TxFlags(t)
    ensures Txe(c, t) <==> !c.ue || (c.te && t.fifo == [])
  {
  }

  // A written byte is accepted exactly when the USART is off or fewer than 63 wait.
  lemma AcceptedIff(c: Control, t: Tx, b: byte)
    requires |t.fifo| <= 63
    ensures WriteData(c, t, b).pushed == t.pushed + [b] <==> !c.ue || |t.fifo| < 63
    ensures c.ue && |t.fifo| == 63 ==> WriteData(c, t, b) == t.(written := t.written + [b], timer := true)
  {
  }

  // How many bytes the backend was ready to take at the drain timer events from i up to k.
  function Accepted(events: seq<Event>, i: nat, k: nat): nat
    requires i <= k <= |events|
    decreases k
  {
    if i == k then 0 else Accepted(events, i, k - 1) + if events[k - 1].DrainTimer? then events[k - 1].accepts else 0
  }

  lemma StepProgresses(s: Usart, e: Event)
    requires e != Reset
    ensures |Step(s, e).tx.output| + |Step(s, e).tx.fifo| >= |s.tx.output| + |s.tx.fifo|
    ensures var n := if e.DrainTimer? then e.accepts else 0;
            |Step(s, e).tx.output| >= Min(|s.tx.output| + n, |s.tx.output| + |s.tx.fifo|)
  {
  }

  lemma Further(a: nat, n: nat, b: nat, m: nat, c: nat)
    requires b >= Min(a, n) && c >= Min(b + m, n)
    ensures c >= Min(a + m, n)
  {
  }

  // Without a reset the backend is given everything it is ready for, until all bytes accepted
  // at the start are out.
  lemma {:induction false} DrainProgresses(states: seq<Usart>, events: seq<Event>, i: nat, k: nat)
    requires Run(states, events) && i <= k < |states| && forall j :: i <= j < k ==> events[j] != Reset
    ensures |states[k].tx.output| + |states[k].tx.fifo| >= |states[i].tx.output| + |states[i].tx.fifo|
    ensures |states[k].tx.output| >=
            Min(|states[i].tx.output| + Accepted(events, i, k), |states[i].tx.output| + |states[i].tx.fifo|)
    decreases k
  {
    if i < k {
      var s, e, t := states[k - 1], events[k - 1], states[k];
      var all := |states[i].tx.output| + |states[i].tx.fifo|;
      DrainProgresses(states, events, i, k - 1);
      RunStep(states, events, k - 1);
      StepProgresses(s, e);
      Further(|states[i].tx.output| + Accepted(events, i, k - 1), all, |s.tx.output|,
              if e.DrainTimer? then e.accepts else 0, |t.tx.output|);
    }
  }

  // ----- Reset and completion ----------------------------------------------------------

  // After a reset both ways are empty and idle, the transmit flags read as set, all four
  // switches are off, and the DMA channel is as it was.
  lemma ResetIdles(s: Usart)
    ensures var t := Step(s, Reset);
            && t.rx.stage == [] && t.rx.fifo == [] && !t.rx.timer && !t.rx.pending && t.rx.rdr == 0
            && t.tx.fifo == [] && !t.tx.timer && t.tx.empty && t.tx.complete
            && !t.control.ue && !t.control.re && !t.control.te && !t.control.dmar && t.channel == s.channel
  {
  }

  // The last byte of a count raises the flags that a whole transfer of DMA channel 5 raises:
  // bits 4 (5 - 1) and 4 (5 - 1) + 1.
  lemma CompletionFlags(ch: Channel, b: nat)
    ensures b in DoneFlags(ch) <==> ch.count == 1 && (b == 4 * 5 - 4 || b == 4 * 5 - 3)
  {
  }
}
