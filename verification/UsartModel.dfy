// The byte pipelines of USART1 as queues, and what every run of them keeps.
//
// Received bytes wait in a stage, are fed one per tick into the receive FIFO, and leave it
// through DATAR or the DMA pump.  Sent bytes wait in the transmit FIFO for the drain timer.
module UsartModel {
  import opened Basics
  import opened DmaEngine
  import opened Sequences

  const DEPTH: nat := 64
  const ROOM: nat := 63      // what a ring of DEPTH bytes holds

  const DATAR_LOW: nat := 0x4001_3804
  const DATAR_HIGH: nat := 0x4001_3807

  // The receive DMA channel: EN, CNTR, PADDR, MADDR and the other configuration bits used.
  datatype Channel = Channel(enabled: bool, count: nat, paddr: nat, maddr: nat,
                             minc: bool, msize: nat, tcie: bool)

  // Switches: CTLR1 and CTLR3 bits.
  datatype Control = Control(ue: bool, re: bool, te: bool, dmar: bool)

  datatype Rx = Rx(
    stage: seq<byte>, timer: bool,
    fifo: seq<byte>, pending: bool, rdr: byte,
    staged: seq<byte>,       // history since reset: taken into the stage
    consumed: seq<byte>)     // and delivered through DATAR or the DMA pump

  datatype Tx = Tx(
    fifo: seq<byte>, empty: bool, complete: bool, timer: bool,
    written: seq<byte>,      // history since reset: written to DATAR,
    pushed: seq<byte>,       // of these, accepted,
    output: seq<byte>)       // and handed to the backend

  datatype Usart = Usart(control: Control, channel: Channel, rx: Rx, tx: Tx)

  // ----- Reception ---------------------------------------------------------------------

  predicate CanReceive(r: Rx) { |r.stage| < ROOM }

  function Receive(c: Control, r: Rx, bytes: seq<byte>): Rx {
    if bytes == [] || !c.ue || !c.re then r
    else
      var k := Min(|bytes|, if |r.stage| < ROOM then ROOM - |r.stage| else 0);
      r.(stage := r.stage + bytes[..k], staged := r.staged + bytes[..k], timer := true)
  }

  // One byte out of a non-empty receive FIFO.
  function Pop(r: Rx): Rx
    requires r.fifo != []
  {
    r.(fifo := r.fifo[1..], pending := |r.fifo| > 1, rdr := if |r.fifo| > 1 then r.fifo[1] else r.rdr,
       consumed := r.consumed + [r.fifo[0]])
  }

  predicate Pumps(c: Control, ch: Channel, r: Rx) {
    c.dmar && ch.enabled && ch.count != 0 && DATAR_LOW <= ch.paddr <= DATAR_HIGH && r.fifo != []
  }

  function AfterPump(ch: Channel): Channel
    requires ch.count != 0
  {
    ch.(enabled := ch.count > 1, count := ch.count - 1,
        maddr := if ch.minc then (ch.maddr + UnitSize(ch.msize)) % WRAP else ch.maddr)
  }

  // The byte pumped to memory, zero-extended to the width of the channel.
  function Stored(bus: Bus, ch: Channel, b: byte): Bus {
    Store(bus, ch.maddr, Resize([b], UnitSize(ch.msize)))
  }

  // Global and completion flag of DMA channel 5, set when its count runs out.
  function DoneFlags(ch: Channel): set<nat> {
    if ch.count == 1 then {16, 17} else {}
  }

  // One byte from a non-empty stage to the FIFO.
  function Feed(r: Rx): Rx
    requires r.stage != []
  {
    var fifo := r.fifo + [r.stage[0]];
    r.(stage := r.stage[1..], fifo := fifo, pending := true, rdr := fifo[0], timer := |r.stage| > 1)
  }

  // ch32_usart1_rx_tick with ch32_usart1_dma_rx_pump; the timer has just fired.
  function FeedTick(c: Control, ch: Channel, r: Rx): (Rx, Channel) {
    if r.stage == [] then (r.(timer := false), ch)
    else if |r.fifo| == ROOM then (r.(timer := true), ch)
    else if Pumps(c, ch, Feed(r)) then (Pop(Feed(r)), AfterPump(ch))
    else (Feed(r), ch)
  }

  // The byte that a tick pumps on to memory.
  function Pumped(c: Control, ch: Channel, r: Rx): Option<byte> {
    if r.stage != [] && |r.fifo| != ROOM && Pumps(c, ch, Feed(r)) then Some(Feed(r).fifo[0]) else None
  }

  function ReadData(r: Rx): (byte, Rx) {
    if r.pending && r.fifo != [] then (r.rdr, Pop(r)) else (0, r)
  }

  // ----- Transmission ------------------------------------------------------------------

  // STATR.TXE
  predicate Txe(c: Control, t: Tx) { !c.ue || (c.te && t.empty) }

  // A switched-off USART passes the byte straight on; a full FIFO drops it.
  function WriteData(c: Control, t: Tx, b: byte): Tx {
    var w := t.(written := t.written + [b]);
    if !c.ue then w.(pushed := t.pushed + [b], output := t.output + [b])
    else if |t.fifo| >= ROOM then w.(timer := true)
    else w.(fifo := t.fifo + [b], pushed := t.pushed + [b], empty := false, complete := false, timer := true)
  }

  // ch32_usart1_tx_drain; its timer has just fired and the backend takes at most k bytes.
  function Drain(t: Tx, k: nat): Tx {
    var n := Min(k, |t.fifo|);
    var sent := t.(fifo := t.fifo[n..], output := t.output + t.fifo[..n], timer := n < |t.fifo|);
    if n == |t.fifo| && (n > 0 || !t.empty) then sent.(empty := true, complete := true) else sent
  }

  // ----- Steps and runs ----------------------------------------------------------------

  datatype Event =
    | Arrive(bytes: seq<byte>)
    | FeedTimer
    | ReadDatar
    | WriteDatar(data: byte)
    | DrainTimer(accepts: nat)
    | ControlWrite(control: Control)
    | ChannelWrite(channel: Channel)
    | Reset

  const RX_RESET: Rx := Rx([], false, [], false, 0, [], [])
  const TX_RESET: Tx := Tx([], true, true, false, [], [], [])
  const POWER_ON: Usart :=
    Usart(Control(false, false, false, false), Channel(false, 0, 0, 0, false, 0, false), RX_RESET, TX_RESET)

  // A timer event needs its timer armed.
  predicate Possible(s: Usart, e: Event) {
    (e.FeedTimer? ==> s.rx.timer) && (e.DrainTimer? ==> s.tx.timer)
  }

  function Step(s: Usart, e: Event): Usart {
    match e
    case Arrive(bytes) => s.(rx := Receive(s.control, s.rx, bytes))
    case FeedTimer =>
      var (rx, channel) := FeedTick(s.control, s.channel, s.rx);
      s.(rx := rx, channel := channel)
    case ReadDatar => s.(rx := ReadData(s.rx).1)
    case WriteDatar(data) => s.(tx := WriteData(s.control, s.tx, data))
    case DrainTimer(accepts) => s.(tx := Drain(s.tx, accepts))
    case ControlWrite(control) => s.(control := control)
    case ChannelWrite(channel) => s.(channel := channel)
    case Reset => POWER_ON.(channel := s.channel)
  }

  // ----- What every step keeps ---------------------------------------------------------

  // Nothing received is lost or reordered, the data register shows the oldest byte, and no
  // waiting byte is without a timer that will move it.
  ghost predicate RxInv(r: Rx) {
    && r.consumed + r.fifo + r.stage == r.staged
    && |r.stage| <= ROOM && |r.fifo| <= ROOM
    && (r.pending <==> r.fifo != [])
    && (r.fifo != [] ==> r.rdr == r.fifo[0])
    && (r.stage != [] ==> r.timer)
  }

  ghost predicate TxFlags(t: Tx) {
    && |t.fifo| <= ROOM
    && (t.empty <==> t.fifo == []) && (t.complete <==> t.fifo == [])
    && (t.fifo != [] ==> t.timer)
  }

  ghost predicate TxOrder(t: Tx) {
    t.output + t.fifo == t.pushed
  }

  lemma PopKeeps(r: Rx)
    requires RxInv(r) && r.fifo != []
    ensures RxInv(Pop(r))
  {
  }

  lemma ReceiveKeeps(c: Control, r: Rx, bytes: seq<byte>)
    requires RxInv(r)
    ensures RxInv(Receive(c, r, bytes))
  {
  }

  lemma FeedTickKeeps(c: Control, ch: Channel, r: Rx)
    requires RxInv(r)
    ensures RxInv(FeedTick(c, ch, r).0)
  {
  }

  lemma StepKeepsRx(s: Usart, e: Event)
    requires RxInv(s.rx)
    ensures RxInv(Step(s, e).rx)
  {
    match e
    case Arrive(bytes) => ReceiveKeeps(s.control, s.rx, bytes);
    case FeedTimer => FeedTickKeeps(s.control, s.channel, s.rx);
    case ReadDatar => if s.rx.fifo != [] { PopKeeps(s.rx); }
    case _ =>
  }

  lemma StepKeepsTxFlags(s: Usart, e: Event)
    requires TxFlags(s.tx)
    ensures TxFlags(Step(s, e).tx)
  {
  }

  // Transmission keeps its order, except that a byte written with the USART switched off
  // overtakes what still waits in the FIFO.  That goes unnoticed exactly when all waiting
  // bytes equal it.
  predicate Overtakes(s: Usart, e: Event) {
    e.WriteDatar? && !s.control.ue && exists i :: 0 <= i < |s.tx.fifo| && s.tx.fifo[i] != e.data
  }

  lemma StepKeepsTxOrder(s: Usart, e: Event)
    requires TxOrder(s.tx)
    ensures TxOrder(Step(s, e).tx) <==> !Overtakes(s, e)
  {
    match e
    case WriteDatar(data) => WriteKeepsOrder(s.control, s.tx, data);
    case DrainTimer(accepts) => DrainKeepsOrder(s.tx, accepts);
    case _ =>
  }

  lemma WriteKeepsOrder(c: Control, t: Tx, b: byte)
    requires TxOrder(t)
    ensures TxOrder(WriteData(c, t, b)) <==> (c.ue || forall i :: 0 <= i < |t.fifo| ==> t.fifo[i] == b)
  {
    ConcatAssociates(t.output, t.fifo, [b]);
    DirectWrite(t.output, t.fifo, b);
  }

  lemma DrainKeepsOrder(t: Tx, k: nat)
    requires TxOrder(t)
    ensures TxOrder(Drain(t, k))
  {
  }

  lemma DirectWrite(output: seq<byte>, tx: seq<byte>, b: byte)
    ensures (output + [b]) + tx == (output + tx) + [b] <==> forall i :: 0 <= i < |tx| ==> tx[i] == b
  {
    var l, r := (output + [b]) + tx, (output + tx) + [b];
    if l == r {
      forall i | 0 <= i < |tx| ensures tx[i] == b {
        AllEqual(output, tx, b, i);
      }
    }
  }

  lemma {:induction false} AllEqual(output: seq<byte>, tx: seq<byte>, b: byte, i: nat)
    requires (output + [b]) + tx == (output + tx) + [b] && i < |tx|
    ensures tx[i] == b
  {
    var l, r := (output + [b]) + tx, (output + tx) + [b];
    assert l[|output| + i] == if i == 0 then b else tx[i - 1];
    assert r[|output| + i] == tx[i];
    if i > 0 { AllEqual(output, tx, b, i - 1); }
  }

  // ----- Runs --------------------------------------------------------------------------

  ghost predicate Run(states: seq<Usart>, events: seq<Event>) {
    && |states| == |events| + 1 && states[0] == POWER_ON
    && forall i {:trigger events[i]} :: 0 <= i < |events| ==>
         Possible(states[i], events[i]) && states[i + 1] == Step(states[i], events[i])
  }

  // Every run: reception is a FIFO without lost wake-ups, and so is transmission as long
  // as no direct write overtakes.
  lemma {:induction false} RunsKeepOrder(states: seq<Usart>, events: seq<Event>, k: nat)
    requires Run(states, events) && k < |states|
    ensures RxInv(states[k].rx) && TxFlags(states[k].tx)
    ensures (forall i :: 0 <= i < k ==> !Overtakes(states[i], events[i])) ==> TxOrder(states[k].tx)
  {
    RunsKeepFlags(states, events, k);
    if forall i :: 0 <= i < k ==> !Overtakes(states[i], events[i]) { RunsKeepTxOrder(states, events, k); }
  }

  lemma RunStep(states: seq<Usart>, events: seq<Event>, k: nat)
    requires Run(states, events) && k < |events|
    ensures states[k + 1] == Step(states[k], events[k])
  {
  }

  lemma {:induction false} RunsKeepFlags(states: seq<Usart>, events: seq<Event>, k: nat)
    requires Run(states, events) && k < |states|
    ensures RxInv(states[k].rx) && TxFlags(states[k].tx)
  {
    if k > 0 {
      RunsKeepFlags(states, events, k - 1);
      RunStep(states, events, k - 1);
      StepKeepsRx(states[k - 1], events[k - 1]);
      StepKeepsTxFlags(states[k - 1], events[k - 1]);
    }
  }

  lemma {:induction false} RunsKeepTxOrder(states: seq<Usart>, events: seq<Event>, k: nat)
    requires Run(states, events) && k < |states|
    requires forall i :: 0 <= i < k ==> !Overtakes(states[i], events[i])
    ensures TxOrder(states[k].tx)
  {
    if k > 0 {
      RunsKeepTxOrder(states, events, k - 1);
      RunStep(states, events, k - 1);
      StepKeepsTxOrder(states[k - 1], events[k - 1]);
    }
  }

  // Firmware that waits for TXE before every write loses no byte.
  lemma {:induction false} WaitingLosesNothing(states: seq<Usart>, events: seq<Event>, k: nat)
    requires Run(states, events) && k < |states|
    requires forall i :: 0 <= i < k ==> Waits(states[i], events[i])
    ensures states[k].tx.pushed == states[k].tx.written
  {
    if k > 0 {
      WaitingLosesNothing(states, events, k - 1);
      RunsKeepFlags(states, events, k - 1);
      RunStep(states, events, k - 1);
      StepLosesNothing(states[k - 1], events[k - 1]);
    }
  }

  predicate Waits(s: Usart, e: Event) {
    e.WriteDatar? ==> Txe(s.control, s.tx)
  }

  lemma StepLosesNothing(s: Usart, e: Event)
    requires TxFlags(s.tx) && s.tx.pushed == s.tx.written && Waits(s, e)
    ensures Step(s, e).tx.pushed == Step(s, e).tx.written
  {
  }

  // What the backend delivered since reset while reception was on.
  function Offered(states: seq<Usart>, events: seq<Event>, k: nat): seq<byte>
    requires k <= |events| <= |states|
  {
    if k == 0 || events[k - 1] == Reset then []
    else
      var before, c := Offered(states, events, k - 1), states[k - 1].control;
      if events[k - 1].Arrive? && c.ue && c.re then before + events[k - 1].bytes else before
  }

  // The backend asks before it delivers, and then delivers one byte at most.
  predicate Asks(s: Usart, e: Event) {
    e.Arrive? ==> CanReceive(s.rx) && |e.bytes| <= 1
  }

  // In every run with such a backend no byte is lost while reception is on: what was
  // delivered is, in order, what firmware has had, what is queued and what is staged.
  lemma AskingLosesNothing(states: seq<Usart>, events: seq<Event>, k: nat)
    requires Run(states, events) && k < |states|
    requires forall i :: 0 <= i < k ==> Asks(states[i], events[i])
    ensures var r := states[k].rx; r.consumed + r.fifo + r.stage == Offered(states, events, k)
  {
    RunsKeepFlags(states, events, k);
    StagedIsOffered(states, events, k);
  }

  lemma {:induction false} StagedIsOffered(states: seq<Usart>, events: seq<Event>, k: nat)
    requires Run(states, events) && k < |states|
    requires forall i :: 0 <= i < k ==> Asks(states[i], events[i])
    ensures states[k].rx.staged == Offered(states, events, k)
  {
    if k > 0 {
      StagedIsOffered(states, events, k - 1);
      RunStep(states, events, k - 1);
      StepStages(states[k - 1], events[k - 1]);
    }
  }

  lemma StepStages(s: Usart, e: Event)
    requires Asks(s, e)
    ensures Step(s, e).rx.staged ==
            if e == Reset then []
            else if e.Arrive? && s.control.ue && s.control.re then s.rx.staged + e.bytes
            else s.rx.staged
  {
    if e.Arrive? && e.bytes != [] { assert e.bytes[..1] == e.bytes; }
    if e.Arrive? && e.bytes == [] { assert s.rx.staged + e.bytes == s.rx.staged; }
  }

  // From power-on: switched on, a byte written, switched off, another byte written.
  lemma DirectWriteOvertakes()
    ensures var on, off := Control(true, true, true, false), Control(false, true, true, false);
            var s := Step(Step(POWER_ON, ControlWrite(on)), WriteDatar(65));
            !TxOrder(Step(Step(s, ControlWrite(off)), WriteDatar(66)).tx)
  {
    var on, off := Control(true, true, true, false), Control(false, true, true, false);
    var s := Step(Step(POWER_ON, ControlWrite(on)), WriteDatar(65));
    var t := Step(Step(s, ControlWrite(off)), WriteDatar(66));
    assert t.tx.output + t.tx.fifo == [66, 65] && t.tx.pushed == [65, 66];
    assert [66, 65][0] != [65, 66][0];
  }
}
