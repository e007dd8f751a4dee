// Whole firmware runs on the transmit ring: filling buffers, arming descriptors and the
// device's turns, with nothing owned but the descriptors that wait.
module EthRing {
  import opened Basics
  import opened EthArming
  import opened EthDescriptors
  import opened EthTx
  import opened GuestMemory
  import opened Sequences

  // Exactly the first q descriptors are owned, and they are ready to send.
  ghost predicate Ring(ram: Ram, chain: seq<nat>, q: nat) {
    && Queue(ram, chain, q)
    && forall i {:trigger Owned(ram, chain[i])} :: q <= i < |chain| ==> !Owned(ram, chain[i])
  }

  lemma ArmKeepsRing(ram: Ram, chain: seq<nat>, q: nat, control: nat, buffer: nat, status: nat)
    requires Ring(ram, chain, q) && q < |chain| && Legal(ram, chain, control, buffer, status)
    ensures Ring(Arm(ram, chain[q], control, buffer, status), chain, q + 1)
  {
    var r := Arm(ram, chain[q], control, buffer, status);
    assert q + 1 < |chain| ==> !Owned(ram, chain[q + 1]);
    ArmExtendsQueue(ram, chain, q, control, buffer, status);
    ArmElsewhere(ram, chain[q], control, buffer, status);
    OthersKept(ram, r, chain, q);
    forall i | q + 1 <= i < |chain| ensures !Owned(r, chain[i]) {
      assert !Owned(ram, chain[i]);
    }
  }

  lemma FillKeepsRing(ram: Ram, chain: seq<nat>, q: nat, a: nat, data: seq<byte>)
    requires Ring(ram, chain, q) && Spare(ram, chain, q, a, |data|)
    ensures Ring(WriteBytes(ram, a, data), chain, q)
  {
    var r := WriteBytes(ram, a, data);
    SpareWriteKeepsQueue(ram, chain, q, a, data);
    WrittenBytes(ram, a, data);
    forall i | q <= i < |chain| ensures !Owned(r, chain[i]) {
      assert !Owned(ram, chain[i]) && chain[i] in chain;
      FieldsKept(ram, r, a, |data|, chain[i]);
    }
  }

  lemma {:induction false} InOwnBytes(das: seq<nat>, da: nat)
    requires da in das
    ensures da + 3 in OwnBytes(das)
  {
    if das[0] != da { InOwnBytes(das[1..], da); }
  }

  // The device's walk leaves what it sent at the end of the ring, not owned.
  lemma WalkKeepsRing(s: Tx, base: nat, chain: seq<nat>, q: nat, n: nat)
    requires Ring(s.ram, chain, q) && s.cursor == chain[0]
    ensures var m := Min(n, q);
            m <= |chain| && Ring(Walk(s, base, n).ram, Rotate(chain, m), q - m)
  {
    var m, frames, r := Min(n, q), Frames(s.ram, chain[..q]), Walk(s, base, n).ram;
    QueuedIs(s.ram, chain, q);
    assert AtQueue(s, chain, frames);
    WalkSendsQueue(s, base, chain, frames, n);
    WalkOnlyDisowns(s, base, chain, frames, n);
    var p := QueuedLength(r, Rotate(chain, m));
    assert p == q - m;
    WalkedFree(s.ram, r, chain, q, m);
  }

  lemma WalkedFree(ram: Ram, r: Ram, chain: seq<nat>, q: nat, m: nat)
    requires Ring(ram, chain, q) && m <= q && OnlyDisowned(ram, r, OwnBytes(chain[..m]))
    ensures forall i {:trigger Rotate(chain, m)[i]} :: q - m <= i < |chain| ==> !Owned(r, Rotate(chain, m)[i])
  {
    forall i | q - m <= i < |chain| ensures !Owned(r, Rotate(chain, m)[i]) {
      var da := Rotate(chain, m)[i];
      if i < |chain| - m {
        assert da == chain[m + i] && !Owned(ram, chain[m + i]);
      } else {
        assert da == chain[..m][i - (|chain| - m)];
        InOwnBytes(chain[..m], da);
      }
    }
  }

  // ----- Descriptors that send nothing -------------------------------------------------

  // A descriptor of a chain whose length is 0 or above 2048 is handed back without a frame, and
  // the walk goes on behind it.
  lemma BadLengthSkipped(s: Tx, base: nat, chain: seq<nat>, n: nat)
    requires Chain(s.ram, chain) && s.cursor == chain[0] && n > 0 && Owned(s.ram, chain[0])
    requires BufferLength(s.ram, chain[0]) == 0 || BufferLength(s.ram, chain[0]) > 2048
    ensures Walk(s, base, n) ==
            Walk(s.(ram := Disowned(s.ram, chain[0]), cursor := Rotate(chain, 1)[0]), base, n - 1)
  {
    NextOfChain(s.ram, chain, base);
  }

  // One whose buffer is not in SRAM is handed back too, reported, and ends the walk.
  lemma BadBufferStops(s: Tx, base: nat, chain: seq<nat>, n: nat)
    requires Chain(s.ram, chain) && s.cursor == chain[0] && n > 0 && Owned(s.ram, chain[0])
    requires 1 <= BufferLength(s.ram, chain[0]) <= 2048
    requires !SpanInSram(s.ram, Buffer(s.ram, chain[0]), BufferLength(s.ram, chain[0]))
    ensures Walk(s, base, n) ==
            s.(ram := Disowned(s.ram, chain[0]), cursor := Rotate(chain, 1)[0], tbus := true)
  {
    NextOfChain(s.ram, chain, base);
  }

  // A cursor that has left SRAM is set back to the list; a descriptor whose link leads out of
  // SRAM is the last of the list, which the walk then begins again.
  lemma OpenEnd(s: Tx, base: nat, n: nat)
    requires n > 0
    ensures !PtrInSram(s.ram, s.cursor) ==> Walk(s, base, n) == s.(cursor := base)
    ensures PtrInSram(s.ram, s.cursor) && Owned(s.ram, s.cursor) && !PtrInSram(s.ram, Next(s.ram, s.cursor)) ==>
              Walk(s, base, 1).cursor == base
  {
  }

  // ----- Operations --------------------------------------------------------------------

  //   Fill     - firmware writes bytes
  //   Queueing - firmware arms the first descriptor that is not owned
  //   Turn     - the device serves the ring
  datatype Op =
    | Fill(a: nat, data: seq<byte>)
    | Queueing(control: nat, buffer: nat, status: nat)
    | Turn

  // The number of frames that wait.
  function Waits(l: Link): nat {
    if |l.tx.sent| <= |l.armed| then |l.armed| - |l.tx.sent| else 0
  }

  // What firmware must keep to: write only to spare memory, and arm a free descriptor with a
  // legal request.
  ghost predicate Permitted(l: Link, op: Op) {
    Waits(l) <= |l.chain| &&
    match op
    case Fill(a, data) => Spare(l.tx.ram, l.chain, Waits(l), a, |data|)
    case Queueing(control, buffer, status) =>
      Waits(l) < |l.chain| && Legal(l.tx.ram, l.chain, control, buffer, status)
    case Turn => true
  }

  ghost function Perform(l: Link, op: Op, base: nat): Link
    requires Permitted(l, op)
  {
    match op
    case Fill(a, data) => l.(tx := l.tx.(ram := WriteBytes(l.tx.ram, a, data)))
    case Queueing(control, buffer, status) =>
      Link(l.tx.(ram := Arm(l.tx.ram, l.chain[Waits(l)], control, buffer, status)), l.chain,
           l.armed + [Frame(status / 0x40_0000 % 4, ReadBytes(l.tx.ram, buffer, control % 0x2000))])
    case Turn => Link(Walk(l.tx, base, MAX_RING), Rotate(l.chain, Min(MAX_RING, Waits(l))), l.armed)
  }

  // The frames armed and not yet sent are those of the owned descriptors, in chain order.
  ghost predicate InRing(l: Link) {
    var q := Waits(l);
    && Ring(l.tx.ram, l.chain, q) && l.tx.cursor == l.chain[0]
    && l.armed == l.tx.sent + Frames(l.tx.ram, l.chain[..q])
  }

  lemma InRingIsFifo(l: Link)
    requires InRing(l)
    ensures Fifo(l) && AtQueue(l.tx, l.chain, Frames(l.tx.ram, l.chain[..Waits(l)]))
  {
    QueuedIs(l.tx.ram, l.chain, Waits(l));
  }

  // Every permitted operation keeps the ring, and is a step of the FIFO.
  lemma OpKeepsRing(l: Link, op: Op, base: nat)
    requires InRing(l) && Permitted(l, op)
    ensures InRing(Perform(l, op, base)) && StepBy(l, Perform(l, op, base), op.Turn?, base)
  {
    InRingIsFifo(l);
    match op
    case Fill(a, data) =>
      FillKeepsRing(l.tx.ram, l.chain, Waits(l), a, data);
      SpareWriteKeepsQueue(l.tx.ram, l.chain, Waits(l), a, data);
      FillIsFirmwareStep(l, Waits(l), a, data);
    case Queueing(control, buffer, status) => QueueingKeepsRing(l, op, base);
    case Turn => TurnKeepsRing(l, base);
  }

  lemma QueueingKeepsRing(l: Link, op: Op, base: nat)
    requires InRing(l) && Permitted(l, op) && op.Queueing?
    ensures InRing(Perform(l, op, base)) && FirmwareStep(l, Perform(l, op, base))
  {
    var q, t := Waits(l), Perform(l, op, base);
    assert q + 1 < |l.chain| ==> !Owned(l.tx.ram, l.chain[q + 1]);
    ArmKeepsRing(l.tx.ram, l.chain, q, op.control, op.buffer, op.status);
    ArmExtendsQueue(l.tx.ram, l.chain, q, op.control, op.buffer, op.status);
    ArmIsFirmwareStep(l, q, op.control, op.buffer, op.status);
    assert Waits(t) == q + 1;
    ConcatAssociates(l.tx.sent, Frames(l.tx.ram, l.chain[..q]), [t.armed[|l.armed|]]);
  }

  lemma TurnKeepsRing(l: Link, base: nat)
    requires InRing(l)
    ensures InRing(Perform(l, Turn, base)) && DeviceStep(l, Perform(l, Turn, base), base)
  {
    var q, t := Waits(l), Perform(l, Turn, base);
    var m, queue := Min(MAX_RING, q), Frames(l.tx.ram, l.chain[..q]);
    InRingIsFifo(l);
    WalkSendsQueue(l.tx, base, l.chain, queue, MAX_RING);
    WalkKeepsRing(l.tx, base, l.chain, q, MAX_RING);
    assert queue == queue[..m] + queue[m..];
    ConcatAssociates(l.tx.sent, queue[..m], queue[m..]);
    assert Waits(t) == q - m;
    QueuedIs(t.tx.ram, t.chain, q - m);
  }

  // ----- Runs --------------------------------------------------------------------------

  ghost predicate Operated(links: seq<Link>, ops: seq<Op>, base: nat) {
    && |links| == |ops| + 1 && InRing(links[0])
    && forall i {:trigger ops[i]} :: 0 <= i < |ops| ==>
         Permitted(links[i], ops[i]) && links[i + 1] == Perform(links[i], ops[i], base)
  }

  function Turned(ops: seq<Op>): seq<bool> {
    seq(|ops|, i requires 0 <= i < |ops| => ops[i].Turn?)
  }

  // From a ring in order on, every run of permitted operations keeps it, whatever their
  // order: it is a run of the FIFO.
  lemma {:induction false} RunKeepsRing(links: seq<Link>, ops: seq<Op>, base: nat, k: nat)
    requires Operated(links, ops, base) && k < |links|
    ensures InRing(links[k])
    ensures forall i :: 0 <= i < k ==> StepBy(links[i], links[i + 1], ops[i].Turn?, base)
  {
    if k > 0 {
      RunKeepsRing(links, ops, base, k - 1);
      OpKeepsRing(links[k - 1], ops[k - 1], base);
    }
  }

  lemma OperatedIsRun(links: seq<Link>, ops: seq<Op>, base: nat)
    requires Operated(links, ops, base)
    ensures RunBy(links, Turned(ops), base)
  {
    RunKeepsRing(links, ops, base, |ops|);
    InRingIsFifo(links[0]);
  }

  // What firmware asked for is sent in that order, nothing twice.
  lemma RingIsFifo(links: seq<Link>, ops: seq<Op>, base: nat, k: nat)
    requires Operated(links, ops, base) && k < |links|
    ensures InRing(links[k]) && links[k].tx.sent <= links[k].armed
    ensures links[0].armed <= links[k].armed && links[0].tx.sent <= links[k].tx.sent
  {
    RunKeepsRing(links, ops, base, k);
    OperatedIsRun(links, ops, base);
    RunIsFifo(links, Turned(ops), base, k);
  }

  // Every turn of the device sends 16 frames more, until all that waited is out.
  lemma RingProgress(links: seq<Link>, ops: seq<Op>, device: seq<bool>, base: nat, i: nat, k: nat)
    requires Operated(links, ops, base) && device == Turned(ops) && i <= k < |links|
    ensures |links[k].tx.sent| >= Min(|links[i].tx.sent| + 16 * Turns(device, i, k), |links[i].armed|)
  {
    var run := device;
    assert RunBy(links, run, base) by { OperatedIsRun(links, ops, base); }
    RunMakesProgress(links, run, base, i, k);
  }
}
