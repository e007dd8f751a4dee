// DWMAC transmit: the descriptor walk, and the FIFO it implements on a well-formed chain.
module EthTx {
  import opened Basics
  import opened EthDescriptors
  import opened GuestMemory
  import opened Sequences

  const MAX_RING: nat := 16

  datatype Tx = Tx(ram: Ram, cursor: nat, sent: seq<Frame>, t: bool, tbus: bool)

  // The walk from the cursor, at most n descriptors.
  function Walk(s: Tx, base: nat, n: nat): Tx
    decreases n
  {
    if n == 0 then s
    else if !PtrInSram(s.ram, s.cursor) then s.(cursor := base)
    else if !Owned(s.ram, s.cursor) then s
    else
      var len := BufferLength(s.ram, s.cursor);
      var done := s.(ram := Disowned(s.ram, s.cursor), cursor := NextOr(s.ram, s.cursor, base));
      if len == 0 || len > PKT_MAX then Walk(done, base, n - 1)
      else if !SpanInSram(s.ram, Buffer(s.ram, s.cursor), len) then done.(tbus := true)
      else Walk(done.(sent := s.sent + [FrameOf(s.ram, s.cursor)], t := true), base, n - 1)
  }

  // ----- The walk sends the queue ------------------------------------------------------

  // The cursor stands at a well-formed chain whose waiting frames are given.
  ghost predicate AtQueue(s: Tx, chain: seq<nat>, frames: seq<Frame>) {
    chain != [] && s.cursor == chain[0] && Queued(s.ram, chain) == Some(frames)
  }

  // On a well-formed chain a walk of at most n descriptors sends the first n frames of the
  // run of owned descriptors, in chain order, each whole, clears their OWN bits, and leaves
  // the cursor behind the last of them.
  lemma {:induction false} WalkSendsQueue(s: Tx, base: nat, chain: seq<nat>, frames: seq<Frame>, n: nat)
    requires AtQueue(s, chain, frames)
    ensures var m, r := Min(n, |frames|), Walk(s, base, n);
            && m <= |chain|
            && r == s.(ram := DisownAll(s.ram, chain[..m]), cursor := r.cursor,
                       sent := s.sent + frames[..m], t := s.t || m > 0)
            && AtQueue(r, Rotate(chain, m), frames[m..])
    decreases n
  {
    if n == 0 || frames == [] {
      WalkStops(s, base, chain, frames, n);
      assert Rotate(chain, 0) == chain;
    } else {
      var one, m := Sent(s, chain, frames), Min(n, |frames|);
      WalkSendsOne(s, base, chain, frames, n);
      WalkSendsQueue(one, base, Rotate(chain, 1), frames[1..], n - 1);
      assert Min(n - 1, |frames[1..]|) == m - 1;
      RotateTwice(chain, m);
      HeadThenTake(s.sent, frames, m);
      assert chain[..m][0] == chain[0] && chain[..m][1..] == chain[1..m];
    }
  }

  // The head of the queue sent.
  ghost function Sent(s: Tx, chain: seq<nat>, frames: seq<Frame>): Tx
    requires AtQueue(s, chain, frames) && frames != []
  {
    HeadOfQueue(s.ram, chain);
    Tx(Disowned(s.ram, chain[0]), Rotate(chain, 1)[0], s.sent + [frames[0]], true, s.tbus)
  }

  lemma WalkSendsOne(s: Tx, base: nat, chain: seq<nat>, frames: seq<Frame>, n: nat)
    requires AtQueue(s, chain, frames) && frames != [] && n > 0
    ensures Owned(s.ram, chain[0])
    ensures Walk(s, base, n) == Walk(Sent(s, chain, frames), base, n - 1)
    ensures AtQueue(Sent(s, chain, frames), Rotate(chain, 1), frames[1..])
  {
    HeadOfQueue(s.ram, chain);
    var q := QueuedLength(s.ram, chain);
    QueueAt(s.ram, chain, q, 0);
    ChainAt(s.ram, chain, 0);
    assert Successor(chain, 0) == Rotate(chain, 1)[0];
    if |chain| > 1 { ChainAt(s.ram, chain, 1); }
  }

  lemma WalkStops(s: Tx, base: nat, chain: seq<nat>, frames: seq<Frame>, n: nat)
    requires AtQueue(s, chain, frames) && (n == 0 || frames == [])
    ensures Walk(s, base, n) == s
  {
    var q := QueuedLength(s.ram, chain);
    ChainAt(s.ram, chain, 0);
  }

  lemma RotateTwice(chain: seq<nat>, m: nat)
    requires 1 <= m <= |chain|
    ensures Rotate(chain, 1) != [] && m - 1 <= |Rotate(chain, 1)|
    ensures Rotate(Rotate(chain, 1), m - 1) == Rotate(chain, m)
    ensures Rotate(chain, 1)[..m - 1] == chain[1..m]
  {
  }

  // Those OWN bits are all that the walk changes in memory, each exactly once.
  lemma WalkOnlyDisowns(s: Tx, base: nat, chain: seq<nat>, frames: seq<Frame>, n: nat)
    requires AtQueue(s, chain, frames)
    ensures var m := Min(n, |frames|);
            m <= |chain| && OnlyDisowned(s.ram, Walk(s, base, n).ram, OwnBytes(chain[..m]))
  {
    var m := Min(n, |frames|);
    WalkSendsQueue(s, base, chain, frames, n);
    var q := QueuedLength(s.ram, chain);
    forall i | 0 <= i < m ensures Owned(s.ram, chain[..m][i]) {
      QueueAt(s.ram, chain, q, i);
    }
    forall i, j | 0 <= i < j < m ensures chain[..m][i] != chain[..m][j] {
      ChainDistinct(s.ram, chain, i, j);
    }
    DisownAllBytes(s.ram, chain[..m]);
  }

  // ----- A FIFO over runs --------------------------------------------------------------

  // The ring between firmware and device: the chain from the cursor and everything that
  // was ever armed.
  datatype Link = Link(tx: Tx, chain: seq<nat>, armed: seq<Frame>)

  ghost predicate Fifo(l: Link) {
    exists queue :: AtQueue(l.tx, l.chain, queue) && l.armed == l.tx.sent + queue
  }

  // Firmware may do anything to memory that keeps the frames it has queued, and may arm
  // further descriptors behind them.
  ghost predicate FirmwareStep(a: Link, b: Link) {
    exists queue, more ::
      && AtQueue(a.tx, a.chain, queue)
      && b.tx == a.tx.(ram := b.tx.ram) && b.chain == a.chain
      && AtQueue(b.tx, b.chain, queue + more)
      && b.armed == a.armed + more
  }

  ghost predicate DeviceStep(a: Link, b: Link, base: nat) {
    exists queue ::
      && AtQueue(a.tx, a.chain, queue)
      && Min(MAX_RING, |queue|) <= |a.chain|
      && b == Link(Walk(a.tx, base, MAX_RING), Rotate(a.chain, Min(MAX_RING, |queue|)), a.armed)
  }

  lemma FirmwareKeepsFifo(a: Link, b: Link)
    requires Fifo(a) && FirmwareStep(a, b)
    ensures Fifo(b) && b.tx.sent == a.tx.sent && a.armed <= b.armed
  {
  }

  // A device step sends everything armed, up to 16 frames.
  lemma DeviceKeepsFifo(a: Link, b: Link, base: nat)
    requires Fifo(a) && DeviceStep(a, b, base)
    ensures Fifo(b) && a.tx.sent <= b.tx.sent && a.armed == b.armed
    ensures b.tx.sent == a.armed[..Min(|a.tx.sent| + 16, |a.armed|)]
  {
    var queue :| AtQueue(a.tx, a.chain, queue) && a.armed == a.tx.sent + queue;
    var m := Min(MAX_RING, |queue|);
    WalkSendsQueue(a.tx, base, a.chain, queue, MAX_RING);
    assert queue == queue[..m] + queue[m..];
    ConcatAssociates(a.tx.sent, queue[..m], queue[m..]);
    assert AtQueue(b.tx, b.chain, queue[m..]);
  }

  // One step of a run, by the device or by firmware.
  ghost predicate StepBy(a: Link, b: Link, device: bool, base: nat) {
    if device then DeviceStep(a, b, base) else FirmwareStep(a, b)
  }

  ghost predicate RunBy(links: seq<Link>, device: seq<bool>, base: nat) {
    && |links| == |device| + 1 && Fifo(links[0])
    && forall i {:trigger device[i]} :: 0 <= i < |device| ==> StepBy(links[i], links[i + 1], device[i], base)
  }

  lemma StepKeepsFifo(a: Link, b: Link, device: bool, base: nat)
    requires Fifo(a) && StepBy(a, b, device, base)
    ensures Fifo(b) && a.armed <= b.armed && a.tx.sent <= b.tx.sent <= b.armed
    ensures device ==> b.tx.sent == a.armed[..Min(|a.tx.sent| + 16, |a.armed|)]
  {
    if device { DeviceKeepsFifo(a, b, base); } else { FirmwareKeepsFifo(a, b); }
  }

  // In every run each armed frame is sent at most once and in order: what was sent is a
  // prefix of what was armed, and the rest still waits in the chain.
  lemma {:induction false} RunIsFifo(links: seq<Link>, device: seq<bool>, base: nat, k: nat)
    requires RunBy(links, device, base) && k < |links|
    ensures Fifo(links[k]) && links[k].tx.sent <= links[k].armed
    ensures links[0].armed <= links[k].armed && links[0].tx.sent <= links[k].tx.sent
  {
    if k > 0 {
      RunIsFifo(links, device, base, k - 1);
      StepKeepsFifo(links[k - 1], links[k], device[k - 1], base);
    }
  }

  // ----- Progress ----------------------------------------------------------------------

  // How many of the steps from i up to k are the device's.
  function Turns(device: seq<bool>, i: nat, k: nat): nat
    requires i <= k <= |device|
    decreases k
  {
    if i == k then 0 else Turns(device, i, k - 1) + if device[k - 1] then 1 else 0
  }

  // What a run says about the numbers of frames sent and armed.
  ghost predicate Advancing(links: seq<Link>, device: seq<bool>) {
    && |links| == |device| + 1
    && forall k {:trigger device[k]} :: 0 <= k < |device| ==> Advance(links[k], links[k + 1], device[k])
  }

  predicate Advance(a: Link, b: Link, device: bool) {
    && |a.armed| <= |b.armed| && |a.tx.sent| <= |b.tx.sent|
    && (device ==> |b.tx.sent| >= Min(|a.tx.sent| + 16, |a.armed|))
  }

  lemma RunAdvances(links: seq<Link>, device: seq<bool>, base: nat)
    requires RunBy(links, device, base)
    ensures Advancing(links, device)
  {
    forall k | 0 <= k < |device| ensures Advance(links[k], links[k + 1], device[k]) {
      RunIsFifo(links, device, base, k);
      StepKeepsFifo(links[k], links[k + 1], device[k], base);
    }
  }

  lemma {:induction false} NumbersAdvance(links: seq<Link>, device: seq<bool>, i: nat, k: nat)
    requires Advancing(links, device) && i <= k < |links|
    ensures |links[i].armed| <= |links[k].armed|
    ensures |links[k].tx.sent| >= Min(|links[i].tx.sent| + 16 * Turns(device, i, k), |links[i].armed|)
    decreases k
  {
    if i < k {
      NumbersAdvance(links, device, i, k - 1);
      assert Advance(links[k - 1], links[k], device[k - 1]);
    }
  }

  // Every device turn sends 16 more of the frames armed at the start, or the rest of them:
  // after n turns, whatever firmware does in between, the first 16 n waiting ones are out.
  lemma RunMakesProgress(links: seq<Link>, device: seq<bool>, base: nat, i: nat, k: nat)
    requires RunBy(links, device, base) && i <= k < |links|
    ensures |links[k].tx.sent| >= Min(|links[i].tx.sent| + 16 * Turns(device, i, k), |links[i].armed|)
  {
    RunAdvances(links, device, base);
    NumbersAdvance(links, device, i, k);
  }
}
