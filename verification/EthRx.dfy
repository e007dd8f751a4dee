// DWMAC receive: one stashed frame, the search for a descriptor, and the accounting of
// frames over runs.
module EthRx {
  import opened Arithmetic
  import opened Basics
  import opened EthDescriptors
  import opened GuestMemory

  const MAX_HOPS: nat := 16

  // What became of a frame that left the stash.
  //   Delivered - written to guest memory, receive event raised
  //   NoBuffer  - dropped, "receive buffer unavailable" raised
  //   Discarded - dropped because receive DMA is off or has no descriptor list
  //   Forgotten - dropped by a reset of the device
  datatype Outcome = Delivered | NoBuffer | Discarded | Forgotten

  datatype Delivery = Delivery(ram: Ram, cursor: nat, outcome: Outcome)

  // Frame length including the checksum in bits 16..29, first, last and type bits.
  function RxStatus(len: nat): nat {
    (len + 4) * 0x1_0000 + 0x200 + 0x100 + 0x20
  }

  // A frame written to the buffer of the descriptor, then its status.
  function Placed(ram: Ram, da: nat, frame: seq<byte>): Ram {
    WriteWord(WriteBytes(ram, Buffer(ram, da), frame), da, RxStatus(|frame|))
  }

  // The search, at most n hops from the cursor.
  function Deliver(ram: Ram, cursor: nat, base: nat, frame: seq<byte>, n: nat): Delivery
    decreases n
  {
    if n == 0 then Delivery(ram, cursor, NoBuffer)
    else if !PtrInSram(ram, cursor) then Delivery(ram, base, NoBuffer)
    else if !Owned(ram, cursor) then Deliver(ram, NextOr(ram, cursor, base), base, frame, n - 1)
    else if !SpanInSram(ram, Buffer(ram, cursor), |frame|) then
      Delivery(ram, NextOr(ram, cursor, base), NoBuffer)
    else Delivery(Placed(ram, cursor, frame), NextOr(ram, cursor, base), Delivered)
  }

  // The descriptor address k hops from the cursor.
  function Hop(ram: Ram, cursor: nat, base: nat, k: nat): nat
    decreases k
  {
    if k == 0 then cursor else Hop(ram, NextOr(ram, cursor, base), base, k - 1)
  }

  // The k-th hop finds the first owned descriptor of the list, and it can take the frame.
  ghost predicate Accepts(ram: Ram, cursor: nat, base: nat, len: nat, k: nat) {
    && (forall j :: 0 <= j <= k ==> PtrInSram(ram, Hop(ram, cursor, base, j)))
    && (forall j :: 0 <= j < k ==> !Owned(ram, Hop(ram, cursor, base, j)))
    && Owned(ram, Hop(ram, cursor, base, k))
    && SpanInSram(ram, Buffer(ram, Hop(ram, cursor, base, k)), len)
  }

  // All or nothing: the frame is placed whole at the first owned descriptor, provided that
  // lies within n hops and has room in SRAM, and otherwise memory is unchanged.
  lemma {:induction false} DeliverAllOrNothing(ram: Ram, cursor: nat, base: nat, frame: seq<byte>, n: nat)
    ensures var d := Deliver(ram, cursor, base, frame, n);
            && (d.outcome == Delivered || (d.outcome == NoBuffer && d.ram == ram))
            && (d.outcome == Delivered <==> exists k: nat :: k < n && Accepts(ram, cursor, base, |frame|, k))
    ensures forall k: nat :: k < n && Accepts(ram, cursor, base, |frame|, k) ==>
              Deliver(ram, cursor, base, frame, n).ram == Placed(ram, Hop(ram, cursor, base, k), frame)
    decreases n
  {
    if n > 0 {
      assert Hop(ram, cursor, base, 0) == cursor;
      if PtrInSram(ram, cursor) && !Owned(ram, cursor) {
        var next := NextOr(ram, cursor, base);
        DeliverAllOrNothing(ram, next, base, frame, n - 1);
        forall k: nat | 0 < k
          ensures Accepts(ram, cursor, base, |frame|, k) == Accepts(ram, next, base, |frame|, k - 1)
        {
          AcceptsLater(ram, cursor, base, |frame|, k);
        }
        if k: nat :| k < n - 1 && Accepts(ram, next, base, |frame|, k) {
          assert Accepts(ram, cursor, base, |frame|, k + 1);
        }
      } else {
        forall k: nat | Accepts(ram, cursor, base, |frame|, k) ensures k == 0 {
          AcceptsBeyond(ram, cursor, base, |frame|, k);
        }
        if Owned(ram, cursor) && PtrInSram(ram, cursor) && SpanInSram(ram, Buffer(ram, cursor), |frame|) {
          assert Accepts(ram, cursor, base, |frame|, 0);
        }
      }
    }
  }

  lemma AcceptsBeyond(ram: Ram, cursor: nat, base: nat, len: nat, k: nat)
    requires Accepts(ram, cursor, base, len, k)
    ensures k > 0 ==> PtrInSram(ram, cursor) && !Owned(ram, cursor)
  {
    assert Hop(ram, cursor, base, 0) == cursor;
  }

  lemma AcceptsLater(ram: Ram, cursor: nat, base: nat, len: nat, k: nat)
    requires k > 0 && PtrInSram(ram, cursor) && !Owned(ram, cursor)
    ensures Accepts(ram, cursor, base, len, k) == Accepts(ram, NextOr(ram, cursor, base), base, len, k - 1)
  {
    var next := NextOr(ram, cursor, base);
    assert forall j: nat :: j > 0 ==> Hop(ram, cursor, base, j) == Hop(ram, next, base, j - 1);
    assert Hop(ram, cursor, base, 0) == cursor;
    if Accepts(ram, next, base, len, k - 1) {
      forall j | 0 <= j <= k ensures PtrInSram(ram, Hop(ram, cursor, base, j)) {
        if j > 0 { assert PtrInSram(ram, Hop(ram, next, base, j - 1)); }
      }
      forall j | 0 <= j < k ensures !Owned(ram, Hop(ram, cursor, base, j)) {
        if j > 0 { assert !Owned(ram, Hop(ram, next, base, j - 1)); }
      }
    }
    if Accepts(ram, cursor, base, len, k) {
      forall j | 0 <= j <= k - 1 ensures PtrInSram(ram, Hop(ram, next, base, j)) {
        assert PtrInSram(ram, Hop(ram, cursor, base, j + 1));
      }
      forall j | 0 <= j < k - 1 ensures !Owned(ram, Hop(ram, next, base, j)) {
        assert !Owned(ram, Hop(ram, cursor, base, j + 1));
      }
    }
  }

  // What firmware finds after a delivery: the frame's bytes in the buffer, then the status
  // word over the first four bytes of the descriptor, and every other byte as before.
  lemma PlacedBytes(ram: Ram, da: nat, frame: seq<byte>)
    ensures |Placed(ram, da, frame)| == |ram|
    ensures forall x: nat :: At(Placed(ram, da, frame), x) ==
              if da <= x < da + 4 && Mapped(ram, x) then ToBytes(RxStatus(|frame|), 4)[x - da]
              else if Buffer(ram, da) <= x < Buffer(ram, da) + |frame| && Mapped(ram, x)
                then frame[x - Buffer(ram, da)]
              else At(ram, x)
  {
    WrittenBytes(ram, Buffer(ram, da), frame);
    WrittenBytes(WriteBytes(ram, Buffer(ram, da), frame), da, ToBytes(RxStatus(|frame|), 4));
  }

  // The descriptor is handed back with length, first, last and type bits; the whole frame is
  // in the buffer exactly when the status word did not change it there.
  lemma PlacedContents(ram: Ram, da: nat, frame: seq<byte>)
    requires SpanInSram(ram, da, 4) && SpanInSram(ram, Buffer(ram, da), |frame|) && |frame| <= 2048
    ensures var r, b := Placed(ram, da, frame), Buffer(ram, da);
            && Word(r, da) == RxStatus(|frame|) && !Owned(r, da)
            && Word(r, da) / 0x1_0000 % 0x4000 == |frame| + 4
            && Word(r, da) / 0x200 % 2 == Word(r, da) / 0x100 % 2 == Word(r, da) / 0x20 % 2 == 1
            && (ReadBytes(r, b, |frame|) == frame <==> Spared(da, b, frame))
  {
    var b, w := Buffer(ram, da), RxStatus(|frame|);
    var r := Placed(ram, da, frame);
    PlacedBytes(ram, da, frame);
    assert ReadBytes(r, da, 4) == ToBytes(w, 4) by {
      forall i | 0 <= i < 4 ensures ReadBytes(r, da, 4)[i] == ToBytes(w, 4)[i] {
        assert At(r, da + i) == ToBytes(w, 4)[i];
      }
    }
    WordRoundTrip(w);
    StatusWord(r, da);
    StatusBits(|frame|);
    BufferReads(ram, r, da, b, frame);
  }

  // Where the status word falls into the buffer it equals the frame.
  ghost predicate Spared(da: nat, b: nat, frame: seq<byte>) {
    forall i :: 0 <= i < |frame| && da <= b + i < da + 4 ==> frame[i] == ToBytes(RxStatus(|frame|), 4)[b + i - da]
  }

  lemma BufferReads(ram: Ram, r: Ram, da: nat, b: nat, frame: seq<byte>)
    requires SpanInSram(ram, da, 4) && SpanInSram(ram, b, |frame|)
    requires forall x: nat :: At(r, x) ==
               if da <= x < da + 4 && Mapped(ram, x) then ToBytes(RxStatus(|frame|), 4)[x - da]
               else if b <= x < b + |frame| && Mapped(ram, x) then frame[x - b]
               else At(ram, x)
    ensures ReadBytes(r, b, |frame|) == frame <==> Spared(da, b, frame)
  {
    forall i | 0 <= i < |frame|
      ensures ReadBytes(r, b, |frame|)[i] ==
              if da <= b + i < da + 4 then ToBytes(RxStatus(|frame|), 4)[b + i - da] else frame[i]
    {
      assert At(r, b + i) == ReadBytes(r, b, |frame|)[i];
    }
    if ReadBytes(r, b, |frame|) == frame {
      forall i | 0 <= i < |frame| && da <= b + i < da + 4
        ensures frame[i] == ToBytes(RxStatus(|frame|), 4)[b + i - da]
      {
        assert ReadBytes(r, b, |frame|)[i] == frame[i];
      }
    }
  }

  lemma StatusBits(len: nat)
    requires len <= 2048
    ensures var w := RxStatus(len);
            && w < OWN && w / 0x1_0000 % 0x4000 == len + 4
            && w / 0x200 % 2 == 1 && w / 0x100 % 2 == 1 && w / 0x20 % 2 == 1
  {
    StatusWordBits(RxStatus(len), len + 4);
  }

  lemma StatusWordBits(w: nat, n: nat)
    requires n < 0x4000 && w == n * 0x1_0000 + 0x320
    ensures w / 0x1_0000 % 0x4000 == n && w / 0x200 % 2 == 1 && w / 0x100 % 2 == 1 && w / 0x20 % 2 == 1
  {
    DivisionIs(w, 0x1_0000, n, 0x320);
    DivisionIs(n, 0x4000, 0, n);
    DivisionIs(w, 0x200, 0x80 * n + 1, 0x120);
    DivisionIs(0x80 * n + 1, 2, 0x40 * n, 1);
    DivisionIs(w, 0x100, 0x100 * n + 3, 0x20);
    DivisionIs(0x100 * n + 3, 2, 0x80 * n + 1, 1);
    DivisionIs(w, 0x20, 0x800 * n + 0x19, 0);
    DivisionIs(0x800 * n + 0x19, 2, 0x400 * n + 12, 1);
  }

  // ----- Accounting --------------------------------------------------------------------

  // The one-frame stash, with everything that was ever accepted into it and the fate of
  // everything that left it.
  datatype Nic = Nic(stash: seq<byte>, accepted: seq<seq<byte>>, left: seq<(seq<byte>, Outcome)>)

  // ch32_eth_net_receive; the first component is the size reported to the network, with
  // -1 for a rejected frame and 0 for "try again later".
  function Receive(s: Nic, frame: seq<byte>, sr: bool, listSet: bool): (int, Nic) {
    if frame == [] || |frame| > 2048 then (-1, s)
    else if !sr || !listSet then (|frame|, s)
    else if s.stash != [] then (0, s)
    else (|frame|, s.(stash := frame, accepted := s.accepted + [frame]))
  }

  // The network is told to keep a frame for later exactly when receive is on and the stash is
  // occupied; the device refuses a bad size, takes a frame exactly when it can stash it, and
  // swallows every other.
  lemma ReportedSize(s: Nic, frame: seq<byte>, sr: bool, listSet: bool)
    ensures var (size, t) := Receive(s, frame, sr, listSet);
            var legal, on := 1 <= |frame| <= 2048, sr && listSet;
            && (size == -1 <==> !legal)
            && (size == 0 <==> legal && on && s.stash != [])
            && (size != -1 && size != 0 ==> size == |frame|)
            && t == if legal && on && s.stash == [] then Nic(frame, s.accepted + [frame], s.left) else s
  {
  }

  function Leave(s: Nic, outcome: Outcome): Nic {
    if s.stash == [] then s
    else s.(stash := [], left := s.left + [(s.stash, outcome)])
  }

  function FramesOf(left: seq<(seq<byte>, Outcome)>): seq<seq<byte>> {
    seq(|left|, i requires 0 <= i < |left| => left[i].0)
  }

  function Waiting(stash: seq<byte>): seq<seq<byte>> {
    if stash == [] then [] else [stash]
  }

  // The receiver with its memory and cursor.
  datatype Device = Device(ram: Ram, cursor: nat, nic: Nic)

  //   Received - a frame from the network
  //   Served   - the stash is served, with the state of DMAOMR.SR and DMARDLAR
  //   Firmware - anything firmware does to memory and cursor
  //   Reset    - a reset of the device
  datatype Event =
    | Received(frame: seq<byte>, sr: bool, list: nat)
    | Served(sr: bool, list: nat)
    | Firmware(ram: Ram, cursor: nat)
    | Reset

  // Where a search starts.
  function Start(d: Device, list: nat): nat {
    if d.cursor == 0 then list else d.cursor
  }

  // The search made for the stashed frame.
  function Search(d: Device, list: nat): Delivery {
    Deliver(d.ram, Start(d, list), list, d.nic.stash, MAX_HOPS)
  }

  function Step(d: Device, e: Event): Device {
    match e
    case Received(frame, sr, list) => d.(nic := Receive(d.nic, frame, sr, list != 0).1)
    case Served(sr, list) =>
      if d.nic.stash == [] then d
      else if !sr || !PtrInSram(d.ram, list) then d.(nic := Leave(d.nic, Discarded))
      else
        var v := Search(d, list);
        Device(v.ram, v.cursor, Leave(d.nic, v.outcome))
    case Firmware(ram, cursor) => d.(ram := ram, cursor := cursor)
    case Reset => d.(cursor := 0, nic := Leave(d.nic, Forgotten))
  }

  // The search of a service step reaches a descriptor that takes the stashed frame: the first
  // owned one from the cursor on, at most 16 hops away.
  ghost predicate Takes(d: Device, list: nat, k: nat) {
    k < 16 && Accepts(d.ram, Start(d, list), list, |d.nic.stash|, k)
  }

  // What became of the stashed frame, and of memory, in one step.
  ghost predicate Accounted(d: Device, e: Event, t: Device, outcome: Outcome) {
    && d.nic.stash != []
    && t.nic == d.nic.(stash := [], left := d.nic.left + [(d.nic.stash, outcome)])
    && match outcome
       case Delivered =>
         e.Served? && e.sr && PtrInSram(d.ram, e.list) &&
         exists k: nat :: Takes(d, e.list, k) &&
                          t.ram == Placed(d.ram, Hop(d.ram, Start(d, e.list), e.list, k), d.nic.stash)
       case NoBuffer =>
         e.Served? && e.sr && PtrInSram(d.ram, e.list) && t.ram == d.ram && forall k: nat :: !Takes(d, e.list, k)
       case Discarded => e.Served? && !(e.sr && PtrInSram(d.ram, e.list)) && t.ram == d.ram
       case Forgotten => e.Reset? && t.ram == d.ram
  }

  // A service step or a reset accounts for the stashed frame; no other step of the device
  // changes memory or makes a frame leave.
  lemma StepAccounts(d: Device, e: Event)
    requires !e.Firmware?
    ensures var t := Step(d, e);
            if (e.Served? || e.Reset?) && d.nic.stash != [] then exists outcome :: Accounted(d, e, t, outcome)
            else t.ram == d.ram && t.nic.left == d.nic.left
  {
    if e.Served? && d.nic.stash != [] {
      if e.sr && PtrInSram(d.ram, e.list) {
        SearchAccounts(d, e);
      } else {
        assert Accounted(d, e, Step(d, e), Discarded);
      }
    } else if e.Reset? && d.nic.stash != [] {
      assert Accounted(d, e, Step(d, e), Forgotten);
    }
  }

  lemma SearchAccounts(d: Device, e: Event)
    requires e.Served? && d.nic.stash != [] && e.sr && PtrInSram(d.ram, e.list)
    ensures Accounted(d, e, Step(d, e), Search(d, e.list).outcome)
  {
    DeliverAllOrNothing(d.ram, Start(d, e.list), e.list, d.nic.stash, MAX_HOPS);
    if Search(d, e.list).outcome == Delivered {
      var k: nat :| k < MAX_HOPS && Accepts(d.ram, Start(d, e.list), e.list, |d.nic.stash|, k);
      assert Takes(d, e.list, k);
    } else {
      forall k: nat ensures !Takes(d, e.list, k) { }
    }
  }

  // ----- Runs --------------------------------------------------------------------------

  ghost predicate Run(states: seq<Device>, events: seq<Event>) {
    && |states| == |events| + 1 && states[0].nic == Nic([], [], [])
    && forall i {:trigger events[i]} :: 0 <= i < |events| ==> states[i + 1] == Step(states[i], events[i])
  }

  ghost predicate Conserved(s: Nic) {
    s.accepted == FramesOf(s.left) + Waiting(s.stash)
  }

  lemma StepConserves(d: Device, e: Event)
    requires Conserved(d.nic)
    ensures Conserved(Step(d, e).nic)
  {
    var s, t := d.nic, Step(d, e).nic;
    if t.left != s.left {
      assert FramesOf(t.left) == FramesOf(s.left) + [s.stash];
    } else if t.stash != s.stash {
      assert t.accepted == s.accepted + [t.stash];
    }
  }

  // Accepted frames are, in order, those delivered or dropped, by a reset too, and the one
  // still stashed.
  lemma {:induction false} RunConserves(states: seq<Device>, events: seq<Event>, k: nat)
    requires Run(states, events) && k < |states|
    ensures Conserved(states[k].nic)
  {
    if k > 0 {
      RunConserves(states, events, k - 1);
      assert states[k] == Step(states[k - 1], events[k - 1]);
      StepConserves(states[k - 1], events[k - 1]);
    }
  }

  // The step of a run at which entry i of the frames that left was made, with its account.
  lemma {:induction false} RunAccounts(states: seq<Device>, events: seq<Event>, n: nat, i: nat) returns (k: nat)
    requires Run(states, events) && n < |states| && i < |states[n].nic.left|
    ensures k < n && |states[k].nic.left| == i
    ensures states[n].nic.left[i].0 == states[k].nic.stash
    ensures Accounted(states[k], events[k], states[k + 1], states[n].nic.left[i].1)
    decreases n
  {
    var d, e, t := states[n - 1], events[n - 1], states[n];
    assert t == Step(d, e);
    if i < |d.nic.left| {
      k := RunAccounts(states, events, n - 1, i);
      LeftGrows(d, e);
    } else {
      StepAccounts(d, e);
      k := n - 1;
    }
  }

  lemma LeftGrows(d: Device, e: Event)
    ensures d.nic.left <= Step(d, e).nic.left
  {
  }
}
