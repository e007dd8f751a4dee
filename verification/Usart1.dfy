// USART1 as the machine runs it: three rings of 64 bytes with head and tail indices.
module Usart1 {
  import opened Basics
  import opened DmaEngine
  import opened UsartModel

  // The index n places behind head.
  function Along(head: nat, n: nat): nat {
    if head + n < DEPTH then head + n else head + n - DEPTH
  }

  // How many bytes lie between head and tail.
  function Used(head: nat, tail: nat): nat
    requires head < DEPTH && tail < DEPTH
  {
    if head <= tail then tail - head else tail + DEPTH - head
  }

  // n bytes of a ring from index head on.
  function Unrolled(buf: seq<byte>, head: nat, n: nat): (s: seq<byte>)
    requires |buf| == DEPTH && head < DEPTH && n < DEPTH
    ensures |s| == n
  {
    seq<byte>(n, i requires 0 <= i < n => buf[Along(head, i)])
  }

  lemma Wraps(i: nat)
    requires i < DEPTH
    ensures (i + 1) % DEPTH == Along(i, 1)
  {
  }

  // Writing behind the last of n bytes appends.
  lemma UnrolledPush(buf: seq<byte>, head: nat, n: nat, b: byte)
    requires |buf| == DEPTH && head < DEPTH && n < ROOM
    ensures Unrolled(buf[Along(head, n) := b], head, n + 1) == Unrolled(buf, head, n) + [b]
  {
  }

  lemma UnrolledPop(buf: seq<byte>, head: nat, n: nat)
    requires |buf| == DEPTH && head < DEPTH && 0 < n < DEPTH
    ensures Unrolled(buf, head, n) == [buf[head]] + Unrolled(buf, Along(head, 1), n - 1)
  {
  }

  class Ring {
    const buf: array<byte>
    var head: nat
    var tail: nat

    ghost predicate Valid()
      reads this
    {
      buf.Length == DEPTH && head < DEPTH && tail < DEPTH
    }

    ghost function Items(): (s: seq<byte>)
      requires Valid()
      reads this, buf
      ensures |s| < DEPTH
    {
      Unrolled(buf[..], head, Used(head, tail))
    }

    constructor ()
      ensures Valid() && Items() == [] && fresh(buf)
    {
      buf := new byte[DEPTH](i => 0);
      head, tail := 0, 0;
    }

    method Empty() returns (r: bool)
      requires Valid()
      ensures r <==> Items() == []
    {
      r := head == tail;
    }

    method Full() returns (r: bool)
      requires Valid()
      ensures r <==> |Items()| == ROOM
    {
      Wraps(tail);
      r := (tail + 1) % DEPTH == head;
    }

    method Push(b: byte)
      requires Valid() && |Items()| < ROOM
      modifies `tail, buf
      ensures Valid() && Items() == old(Items()) + [b]
    {
      Wraps(tail);
      UnrolledPush(buf[..], head, Used(head, tail), b);
      ghost var written := buf[..][tail := b];
      buf[tail] := b;
      assert buf[..] == written;
      tail := (tail + 1) % DEPTH;
    }

    // As many of the bytes as there is room for.
    method PushAll(bytes: seq<byte>) returns (n: nat)
      requires Valid()
      modifies `tail, buf
      ensures Valid() && n == Min(|bytes|, ROOM - |old(Items())|) && Items() == old(Items()) + bytes[..n]
    {
      n := 0;
      var full := Full();
      while n < |bytes| && !full
        invariant Valid() && n <= |bytes| && (full <==> |Items()| == ROOM)
        invariant Items() == old(Items()) + bytes[..n]
      {
        Push(bytes[n]);
        assert bytes[..n + 1] == bytes[..n] + [bytes[n]];
        n := n + 1;
        full := Full();
      }
    }

    method Pop() returns (b: byte)
      requires Valid() && Items() != []
      modifies `head
      ensures Valid() && [b] + Items() == old(Items())
    {
      Wraps(head);
      UnrolledPop(buf[..], head, Used(head, tail));
      b := buf[head];
      head := (head + 1) % DEPTH;
    }

    method Peek() returns (b: byte)
      requires Valid() && Items() != []
      ensures b == Items()[0]
    {
      b := buf[head];
    }

    method Clear()
      requires Valid()
      modifies `head, `tail
      ensures Valid() && Items() == []
    {
      head, tail := 0, 0;
    }
  }

  class Usart1 {
    const stage: Ring
    const rxFifo: Ring
    const txFifo: Ring
    var control: Control
    var channel: Channel
    var bus: Bus             // guest memory
    var intfr: set<nat>      // flags of the DMA controller
    var rxTimer: bool
    var pending: bool
    var rdr: byte
    var txEmpty: bool
    var txComplete: bool
    var txTimer: bool
    ghost var staged: seq<byte>
    ghost var consumed: seq<byte>
    ghost var written: seq<byte>
    ghost var pushed: seq<byte>
    var output: seq<byte>    // bytes handed to the backend

    ghost predicate Valid()
      reads this, stage, rxFifo, txFifo
    {
      && stage.Valid() && rxFifo.Valid() && txFifo.Valid()
      && stage != rxFifo && stage != txFifo && rxFifo != txFifo
      && stage.buf != rxFifo.buf && stage.buf != txFifo.buf && rxFifo.buf != txFifo.buf
    }

    ghost function RxState(): Rx
      requires stage.Valid() && rxFifo.Valid()
      reads this, stage, stage.buf, rxFifo, rxFifo.buf
    {
      Rx(stage.Items(), rxTimer, rxFifo.Items(), pending, rdr, staged, consumed)
    }

    ghost function TxState(): Tx
      requires txFifo.Valid()
      reads this, txFifo, txFifo.buf
    {
      Tx(txFifo.Items(), txEmpty, txComplete, txTimer, written, pushed, output)
    }

    constructor ()
      ensures Valid() && RxState() == RX_RESET && TxState() == TX_RESET
      ensures control == POWER_ON.control && channel == POWER_ON.channel
    {
      stage := new Ring();
      rxFifo := new Ring();
      txFifo := new Ring();
      control, channel := Control(false, false, false, false), POWER_ON.channel;
      bus, intfr := map[], {};
      rxTimer, pending, rdr := false, false, 0;
      txEmpty, txComplete, txTimer := true, true, false;
      output, staged, consumed, written, pushed := [], [], [], [], [];
    }

    // ch32_usart1_receive
    method ReceiveBytes(bytes: seq<byte>)
      requires Valid()
      modifies stage`tail, stage.buf, `rxTimer, `staged
      ensures Valid() && RxState() == Receive(control, old(RxState()), bytes)
    {
      if |bytes| < 1 { return; }
      if !control.ue || !control.re { return; }
      var n := stage.PushAll(bytes);
      staged := staged + bytes[..n];
      rxTimer := true;
    }

    // One byte out of the receive FIFO.
    method PopRx() returns (b: byte)
      requires Valid() && rxFifo.Items() != []
      modifies rxFifo`head, `pending, `rdr, `consumed
      ensures Valid() && b == old(rxFifo.Items())[0] && RxState() == Pop(old(RxState()))
    {
      b := rxFifo.Pop();
      var empty := rxFifo.Empty();
      pending := !empty;
      if pending { rdr := rxFifo.Peek(); }
      consumed := consumed + [b];
    }

    // ch32_dma_write_byte: the byte in the width of the channel, errors ignored.
    method DmaWriteByte(b: byte)
      modifies `bus, `channel
      ensures bus == Stored(old(bus), old(channel), b)
      ensures channel == old(channel).(maddr :=
        if channel.minc then (old(channel).maddr + UnitSize(channel.msize)) % WRAP else old(channel).maddr)
    {
      var size := UnitSize(channel.msize);
      bus := Store(bus, channel.maddr, Resize([b], size));
      if channel.minc { channel := channel.(maddr := (channel.maddr + size) % WRAP); }
    }

    // One byte handed to the channel, which is finished when its count runs out.
    method ChannelByte(b: byte) returns (fire: bool)
      requires channel.count != 0 && channel.enabled
      modifies `channel, `bus, `intfr
      ensures var ch := old(channel);
              && channel == AfterPump(ch) && bus == Stored(old(bus), ch, b)
              && intfr == old(intfr) + DoneFlags(ch) && (fire <==> ch.count == 1 && ch.tcie)
    {
      fire := false;
      DmaWriteByte(b);
      channel := channel.(count := channel.count - 1);
      if channel.count == 0 {
        channel := channel.(enabled := false);
        intfr := intfr + {16, 17};
        fire := channel.tcie;
      }
    }

    // ch32_usart1_dma_rx_pump; fire says whether the channel's completion interrupt is due.
    method DmaRxPump() returns (fire: bool)
      requires Valid()
      modifies rxFifo`head, `pending, `rdr, `consumed, `channel, `bus, `intfr
      ensures Valid()
      ensures var r, ch := old(RxState()), old(channel);
              if Pumps(control, ch, r) then
                && RxState() == Pop(r) && channel == AfterPump(ch)
                && bus == Stored(old(bus), ch, r.fifo[0]) && intfr == old(intfr) + DoneFlags(ch)
                && (fire <==> ch.count == 1 && ch.tcie)
              else RxState() == r && channel == ch && bus == old(bus) && intfr == old(intfr) && !fire
    {
      fire := false;
      if !control.dmar || !channel.enabled || channel.count == 0 { return; }
      if channel.paddr < DATAR_LOW || channel.paddr > DATAR_HIGH { return; }
      var empty := rxFifo.Empty();
      if empty { return; }
      var b := PopRx();
      fire := ChannelByte(b);
    }

    // One byte from the stage to the FIFO.
    method FeedOne()
      requires Valid() && stage.Items() != [] && |rxFifo.Items()| < ROOM
      modifies stage`head, rxFifo`tail, rxFifo.buf, `pending, `rdr
      ensures Valid() && RxState() == Feed(old(RxState())).(timer := rxTimer)
    {
      var b := stage.Pop();
      rxFifo.Push(b);
      pending := true;
      rdr := rxFifo.Peek();
    }

    // ch32_usart1_rx_tick, with its timer no longer pending.
    method RxTick() returns (fire: bool)
      requires Valid() && rxTimer
      modifies stage`head, rxFifo`head, rxFifo`tail, rxFifo.buf, `rxTimer, `pending, `rdr, `consumed
      modifies `channel, `bus, `intfr
      ensures Valid() && (RxState(), channel) == FeedTick(control, old(channel), old(RxState()))
      ensures var ch := old(channel);
              match Pumped(control, ch, old(RxState()))
              case None => bus == old(bus) && intfr == old(intfr) && !fire
              case Some(b) => bus == Stored(old(bus), ch, b) && intfr == old(intfr) + DoneFlags(ch) &&
                              (fire <==> ch.count == 1 && ch.tcie)
    {
      rxTimer, fire := false, false;
      var stageEmpty := stage.Empty();
      if stageEmpty { return; }
      var full := rxFifo.Full();
      if full {
        rxTimer := true;
        return;
      }
      FeedOne();
      fire := DmaRxPump();
      stageEmpty := stage.Empty();
      if !stageEmpty { rxTimer := true; }
    }

    // A read of DATAR.
    method ReadDatar() returns (b: byte)
      requires Valid() && (pending ==> rxFifo.Items() != [])
      modifies rxFifo`head, `pending, `rdr, `consumed
      ensures Valid() && (b, RxState()) == ReadData(old(RxState()))
    {
      b := 0;
      if pending {
        b := rdr;
        var head := PopRx();
      }
    }

    // A write of DATAR.
    method WriteDatar(b: byte)
      requires Valid()
      modifies txFifo`tail, txFifo.buf, `txEmpty, `txComplete, `txTimer, `written, `pushed, `output
      ensures Valid() && TxState() == WriteData(control, old(TxState()), b)
    {
      written := written + [b];
      if !control.ue {
        output := output + [b];
        pushed := pushed + [b];
        return;
      }
      var full := txFifo.Full();
      if !full {
        txFifo.Push(b);
        txEmpty, txComplete := false, false;
        pushed := pushed + [b];
      }
      if !txTimer { txTimer := true; }
    }

    // ch32_usart1_tx_drain, with its timer no longer pending; the backend takes k bytes
    // and then refuses.
    method TxDrain(k: nat)
      requires Valid() && txTimer
      modifies txFifo`head, `txEmpty, `txComplete, `txTimer, `output
      ensures Valid() && TxState() == Drain(old(TxState()), k)
    {
      txTimer := false;
      var n, refused := DrainFifo(k);
      if refused {
        txTimer := true;
      } else if n > 0 || !txEmpty {
        txEmpty, txComplete := true, true;
      }
    }

    // The drain loop.
    method DrainFifo(k: nat) returns (n: nat, refused: bool)
      requires Valid()
      modifies txFifo`head, `output
      ensures Valid() && n == Min(k, |old(txFifo.Items())|) && (refused <==> n < |old(txFifo.Items())|)
      ensures txFifo.Items() == old(txFifo.Items())[n..] && output == old(output) + old(txFifo.Items())[..n]
    {
      n, refused := 0, false;
      ghost var items := txFifo.Items();
      var empty := txFifo.Empty();
      while !empty
        invariant Valid() && n <= |items| && n <= k
        invariant txFifo.Items() == items[n..] && output == old(output) + items[..n]
        invariant empty <==> n == |items|
        decreases |items| - n
      {
        if n == k { return n, true; }
        var b := txFifo.Pop();
        output := output + [b];
        assert items[..n + 1] == items[..n] + [b];
        n := n + 1;
        empty := txFifo.Empty();
      }
    }

    // ch32_usart1_reset
    method Reset()
      requires Valid()
      modifies stage`head, stage`tail, rxFifo`head, rxFifo`tail, txFifo`head, txFifo`tail, `control
      modifies `pending, `rdr, `rxTimer, `staged, `consumed
      modifies `txEmpty, `txComplete, `txTimer, `output, `written, `pushed
      ensures Valid() && RxState() == RX_RESET && TxState() == TX_RESET && control == POWER_ON.control
    {
      control := Control(false, false, false, false);
      ResetRx();
      ResetTx();
    }

    method ResetRx()
      requires Valid()
      modifies stage`head, stage`tail, rxFifo`head, rxFifo`tail
      modifies `pending, `rdr, `rxTimer, `staged, `consumed
      ensures Valid() && RxState() == RX_RESET
    {
      rxFifo.Clear();
      pending, rdr := false, 0;
      stage.Clear();
      rxTimer := false;
      staged, consumed := [], [];
    }

    method ResetTx()
      requires Valid()
      modifies txFifo`head, txFifo`tail, `txEmpty, `txComplete, `txTimer, `output, `written, `pushed
      ensures Valid() && TxState() == TX_RESET
    {
      txFifo.Clear();
      txEmpty, txComplete, txTimer := true, true, false;
      output, written, pushed := [], [], [];
    }
  }
}
