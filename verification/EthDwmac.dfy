// The DWMAC block as the machine runs it: rings in guest memory, a one-frame receive
// stash, and its loops.
module EthDwmac {
  import opened Basics
  import opened EthDescriptors
  import opened EthRx
  import opened EthTx
  import opened GuestMemory

  class Dwmac {
    const ram: array<byte>
    var started: bool        // DMAOMR.ST, a network peer being attached
    var receiving: bool      // DMAOMR.SR
    var txList: nat          // DMATDLAR
    var rxList: nat          // DMARDLAR
    var txCursor: nat
    var rxCursor: nat
    var t: bool              // DMASR event bits
    var r: bool
    var tbus: bool
    var rbus: bool
    var stash: seq<byte>     // rx_stash and rx_stash_len
    var sent: seq<Frame>     // frames handed to the network
    ghost var accepted: seq<seq<byte>>
    ghost var left: seq<(seq<byte>, Outcome)>

    ghost function TxState(): Tx
      reads this, ram
    {
      Tx(ram[..], txCursor, sent, t, tbus)
    }

    ghost function NicState(): Nic
      reads this
    {
      Nic(stash, accepted, left)
    }

    ghost function RxDevice(): Device
      reads this, ram
    {
      Device(ram[..], rxCursor, NicState())
    }

    method WriteRam(a: nat, data: seq<byte>)
      modifies ram
      ensures ram[..] == WriteBytes(old(ram[..]), a, data)
    {
      for i := 0 to |data|
        invariant ram[..] == WriteBytes(old(ram[..]), a, data[..i])
      {
        assert data[..i + 1][..i] == data[..i];
        if SRAM_BASE <= a + i < SRAM_BASE + ram.Length {
          ram[a + i - SRAM_BASE] := data[i];
        }
      }
      assert data[..|data|] == data;
    }

    // ch32_eth_desc_read and the fields that transmit takes from the four words.
    method ReadTxDescriptor(da: nat) returns (owned: bool, cic: nat, len: nat, buffer: nat, next: nat)
      ensures owned == Owned(ram[..], da) && cic == ChecksumField(ram[..], da)
      ensures len == BufferLength(ram[..], da) && buffer == Buffer(ram[..], da) && next == Next(ram[..], da)
    {
      var td0, td1 := Word(ram[..], da), Word(ram[..], da + 4);
      buffer, next := Word(ram[..], da + 8), Word(ram[..], da + 12);
      StatusWord(ram[..], da);
      ControlWord(ram[..], da);
      owned := td0 >= OWN;
      cic := td0 / 0x40_0000 % 4;
      len := td1 % 0x2000;
    }

    // The status word written back with its OWN bit cleared.
    method ClearOwn(da: nat)
      requires Owned(ram[..], da)
      modifies ram
      ensures ram[..] == Disowned(old(ram[..]), da)
    {
      StatusWritten(ram[..], da);
      var td0 := Word(ram[..], da);
      WriteRam(da, ToBytes(td0 - OWN, 4));
    }

    // One turn of the transmit loop, of which n are left.
    method SendOne(base: nat, ghost n: nat) returns (more: bool)
      requires n > 0
      modifies ram, `txCursor, `sent, `t, `tbus
      ensures Walk(old(TxState()), base, n) == if more then Walk(TxState(), base, n - 1) else TxState()
    {
      var da := txCursor;
      if !PtrInSram(ram[..], da) {
        txCursor := base;
        return false;
      }
      var owned, cic, len, buffer, next := ReadTxDescriptor(da);
      if !owned { return false; }
      more := true;
      if len != 0 && len <= PKT_MAX {
        if SpanInSram(ram[..], buffer, len) {
          sent := sent + [Frame(cic, ReadBytes(ram[..], buffer, len))];
          t := true;
        } else {
          tbus := true;
          more := false;
        }
      }
      ClearOwn(da);
      txCursor := if PtrInSram(ram[..], next) then next else base;
    }

    // ch32_eth_process_tx
    method ProcessTx()
      modifies ram, `txCursor, `sent, `t, `tbus
      ensures var s := old(TxState());
              TxState() ==
              if !started || !PtrInSram(s.ram, txList) then s
              else Walk(if s.cursor == 0 then s.(cursor := txList) else s, txList, EthTx.MAX_RING)
    {
      if !started { return; }
      var base := txList;
      if !PtrInSram(ram[..], base) { return; }
      if txCursor == 0 { txCursor := base; }
      ghost var start := TxState();
      var i, more := 0, true;
      while i < EthTx.MAX_RING && more
        invariant i <= EthTx.MAX_RING
        invariant Walk(start, base, EthTx.MAX_RING) ==
                  if more then Walk(TxState(), base, EthTx.MAX_RING - i) else TxState()
      {
        more := SendOne(base, EthTx.MAX_RING - i);
        i := i + 1;
      }
    }

    ghost function RxState(outcome: Outcome): Delivery
      reads this, ram
    {
      Delivery(ram[..], rxCursor, outcome)
    }

    // One turn of the receive loop, of which n are left.
    method DeliverOne(base: nat, ghost n: nat) returns (more: bool, outcome: Outcome)
      requires n > 0
      modifies ram, `rxCursor
      ensures var d := Deliver(old(ram[..]), old(rxCursor), base, stash, n);
              if more then ram[..] == old(ram[..]) && d == Deliver(ram[..], rxCursor, base, stash, n - 1)
              else d == RxState(outcome)
      ensures outcome == Delivered || outcome == NoBuffer
      ensures more ==> outcome == NoBuffer
    {
      var da := rxCursor;
      if !PtrInSram(ram[..], da) {
        rxCursor := base;
        return false, NoBuffer;
      }
      StatusWord(ram[..], da);
      var rd0 := Word(ram[..], da);
      var rd2, rd3 := Word(ram[..], da + 8), Word(ram[..], da + 12);
      rxCursor := if PtrInSram(ram[..], rd3) then rd3 else base;
      if rd0 < OWN { return true, NoBuffer; }
      if !SpanInSram(ram[..], rd2, |stash|) { return false, NoBuffer; }
      WriteRam(rd2, stash);
      WriteRam(da, ToBytes(RxStatus(|stash|), 4));
      return false, Delivered;
    }

    // ch32_eth_deliver_rx_stash.  Every exit empties the stash.
    method DeliverRxStash()
      modifies ram, `rxCursor, `r, `rbus, `stash, `left
      ensures RxDevice() == Step(old(RxDevice()), Served(receiving, rxList))
      ensures var d := old(RxDevice());
              if d.nic.stash == [] || !receiving || !PtrInSram(d.ram, rxList) then r == old(r) && rbus == old(rbus)
              else var v := Search(d, rxList);
                   r == (old(r) || v.outcome == Delivered) && rbus == (old(rbus) || v.outcome == NoBuffer)
    {
      if stash == [] { return; }
      var outcome := Discarded;
      if receiving && PtrInSram(ram[..], rxList) {
        outcome := DeliverAlong(rxList);
        if outcome == Delivered { r := true; } else { rbus := true; }
      }
      left := left + [(stash, outcome)];
      stash := [];
    }

    // The receive loop.
    method DeliverAlong(base: nat) returns (outcome: Outcome)
      modifies ram, `rxCursor
      ensures Deliver(old(ram[..]), if old(rxCursor) == 0 then base else old(rxCursor), base, stash, MAX_HOPS) ==
              RxState(outcome)
      ensures outcome == Delivered || outcome == NoBuffer
    {
      outcome := NoBuffer;
      if rxCursor == 0 { rxCursor := base; }
      ghost var cursor := rxCursor;
      var i, more := 0, true;
      while i < MAX_HOPS && more
        invariant i <= MAX_HOPS && (outcome == Delivered || outcome == NoBuffer)
        invariant more ==> ram[..] == old(ram[..]) && outcome == NoBuffer
        invariant Deliver(old(ram[..]), cursor, base, stash, MAX_HOPS) ==
                  if more then Deliver(ram[..], rxCursor, base, stash, MAX_HOPS - i) else RxState(outcome)
      {
        more, outcome := DeliverOne(base, MAX_HOPS - i);
        i := i + 1;
      }
    }

    // ch32_eth_reset: the registers, then the stash and both cursors.
    method Reset()
      modifies `started, `receiving, `txList, `rxList, `t, `r, `tbus, `rbus, `stash, `left, `txCursor, `rxCursor
      ensures RxDevice() == Step(old(RxDevice()), Event.Reset)
      ensures TxState() == old(TxState()).(cursor := 0, t := false, tbus := false)
      ensures !started && !receiving && txList == 0 && rxList == 0 && !r && !rbus
    {
      ClearRegisters();
      ForgetStash();
      txCursor, rxCursor := 0, 0;
    }

    method ClearRegisters()
      modifies `started, `receiving, `txList, `rxList, `t, `r, `tbus, `rbus
      ensures !started && !receiving && txList == 0 && rxList == 0 && !t && !r && !tbus && !rbus
    {
      started, receiving, txList, rxList := false, false, 0, 0;
      t, r, tbus, rbus := false, false, false, false;
    }

    method ForgetStash()
      modifies `stash, `left
      ensures NicState() == Leave(old(NicState()), Forgotten)
    {
      if stash != [] { left := left + [(stash, Forgotten)]; }
      stash := [];
    }

    // ch32_eth_net_receive
    method NetReceive(frame: seq<byte>) returns (size: int)
      modifies `stash, `accepted
      ensures (size, NicState()) == Receive(old(NicState()), frame, receiving, rxList != 0)
      ensures RxDevice() == Step(old(RxDevice()), Received(frame, receiving, rxList))
    {
      if |frame| == 0 || |frame| > PKT_MAX { return -1; }
      if !receiving { return |frame|; }
      if rxList == 0 { return |frame|; }
      if |stash| != 0 { return 0; }
      stash := frame;
      accepted := accepted + [frame];
      return |frame|;
    }
  }
}
