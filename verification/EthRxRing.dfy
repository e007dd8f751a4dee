// Receive on a well-formed ring: where a delivery goes and where the cursor stands after it,
// and over whole runs with firmware that takes frames and gives their descriptors back.
module EthRxRing {
  import opened Arithmetic
  import opened Basics
  import opened EthArming
  import opened EthDescriptors
  import opened EthRx
  import opened GuestMemory
  import opened Sequences

  // ----- The search on a closed chain --------------------------------------------------

  lemma NextInChain(ram: Ram, chain: seq<nat>, base: nat)
    requires Chain(ram, chain)
    ensures PtrInSram(ram, chain[0]) && NextOr(ram, chain[0], base) == Rotate(chain, 1)[0]
    ensures Chain(ram, Rotate(chain, 1))
  {
    NextOfChain(ram, chain, base);
    RotatedChain(ram, ram, chain);
  }

  // The first owned descriptor from the cursor on, when it lies within the hop bound, takes
  // the frame if its buffer does, and the cursor moves to its successor in the chain, whether
  // it does or not.
  lemma {:induction false} FirstOwnedTakes(ram: Ram, chain: seq<nat>, base: nat, frame: seq<byte>, n: nat, k: nat)
    requires Chain(ram, chain) && k < |chain| && k < n && Owned(ram, chain[k])
    requires forall j :: 0 <= j < k ==> !Owned(ram, chain[j])
    ensures Deliver(ram, chain[0], base, frame, n) ==
            if SpanInSram(ram, Buffer(ram, chain[k]), |frame|)
            then Delivery(Placed(ram, chain[k], frame), Successor(chain, k), Delivered)
            else Delivery(ram, Successor(chain, k), NoBuffer)
    decreases n
  {
    NextInChain(ram, chain, base);
    if k > 0 {
      var rest := Rotate(chain, 1);
      assert forall j {:trigger rest[j]} :: 0 <= j < |chain| - 1 ==> rest[j] == chain[j + 1];
      FirstOwnedTakes(ram, rest, base, frame, n - 1, k - 1);
      assert Successor(rest, k - 1) == Successor(chain, k);
    }
  }

  // When no descriptor is owned the frame is dropped, and the cursor has gone round the chain
  // by as many descriptors as there are hops.
  lemma {:induction false} NoneOwnedDrops(ram: Ram, chain: seq<nat>, base: nat, frame: seq<byte>, n: nat)
    requires Chain(ram, chain) && forall j :: 0 <= j < |chain| ==> !Owned(ram, chain[j])
    ensures Deliver(ram, chain[0], base, frame, n) == Delivery(ram, chain[n % |chain|], NoBuffer)
    decreases n
  {
    if n == 0 {
      DivisionIs(0, |chain|, 0, 0);
    } else {
      var rest := Rotate(chain, 1);
      NextInChain(ram, chain, base);
      forall j | 0 <= j < |chain| ensures !Owned(ram, rest[j]) {
        assert rest[j] == chain[if j + 1 < |chain| then j + 1 else 0];
      }
      NoneOwnedDrops(ram, rest, base, frame, n - 1);
      NextCount(n - 1, |chain|);
    }
  }

  // A cursor outside SRAM is set back to the list, and so is one whose descriptor links out of
  // SRAM.
  lemma LostCursor(ram: Ram, cursor: nat, base: nat, frame: seq<byte>, n: nat)
    requires n > 0
    ensures !PtrInSram(ram, cursor) ==> Deliver(ram, cursor, base, frame, n) == Delivery(ram, base, NoBuffer)
    ensures PtrInSram(ram, cursor) && Owned(ram, cursor) && !PtrInSram(ram, Next(ram, cursor)) ==>
              Deliver(ram, cursor, base, frame, n).cursor == base
  {
  }

  // After a device reset the next frame goes to the first descriptor of the list, when that is
  // given to the device, wherever the cursor stood before.
  lemma ResetStartsAtList(d: Device, chain: seq<nat>, frame: seq<byte>)
    requires Chain(d.ram, chain) && Owned(d.ram, chain[0]) && 1 <= |frame| <= 2048
    requires SpanInSram(d.ram, Buffer(d.ram, chain[0]), |frame|)
    ensures var list := chain[0];
            var t := Step(Step(Step(d, EthRx.Event.Reset), Received(frame, true, list)), Served(true, list));
            t.ram == Placed(d.ram, list, frame) && t.cursor == Successor(chain, 0) &&
            t.nic.left == Leave(d.nic, Forgotten).left + [(frame, Delivered)]
  {
    ChainAt(d.ram, chain, 0);
    FirstOwnedTakes(d.ram, chain, chain[0], frame, MAX_HOPS, 0);
  }

  // ----- A ring of receive buffers -----------------------------------------------------

  // Every descriptor has a buffer for a whole frame, apart from all descriptors and from the
  // other buffers.
  ghost predicate Rooms(ram: Ram, chain: seq<nat>) {
    && (forall i {:trigger chain[i]} :: 0 <= i < |chain| ==> RoomAt(ram, chain, chain[i]))
    && forall i, j :: 0 <= i < |chain| && 0 <= j < |chain| && i != j ==>
         ApartFrom(Buffer(ram, chain[i]), PKT_MAX, Buffer(ram, chain[j]), PKT_MAX)
  }

  ghost predicate RoomAt(ram: Ram, chain: seq<nat>, da: nat) {
    SpanInSram(ram, Buffer(ram, da), PKT_MAX) && forall d :: d in chain ==> ApartFrom(Buffer(ram, da), PKT_MAX, d, 16)
  }

  // The descriptor shows a frame.
  ghost predicate Shows(ram: Ram, da: nat, frame: seq<byte>) {
    && 1 <= |frame| <= PKT_MAX
    && !Owned(ram, da)
    && LengthShown(ram, da) == |frame|
    && ReadBytes(ram, Buffer(ram, da), |frame|) == frame
  }

  // The length that firmware reads in the status word, without the checksum.
  function LengthShown(ram: Ram, da: nat): nat {
    var n := Word(ram, da) / 0x1_0000 % 0x4000;
    if n >= 4 then n - 4 else 0
  }

  // From the cursor on: descriptors given to the device, then those that hold the frames
  // firmware has not yet taken, oldest first.
  ghost predicate RxRing(ram: Ram, chain: seq<nat>, held: seq<seq<byte>>) {
    && Chain(ram, chain) && Rooms(ram, chain) && |held| <= |chain|
    && (forall i {:trigger Owned(ram, chain[i])} :: 0 <= i < |chain| - |held| ==> Owned(ram, chain[i]))
    && forall i {:trigger held[i]} :: 0 <= i < |held| ==> Shows(ram, chain[|chain| - |held| + i], held[i])
  }

  // Memory in which only the first word of one descriptor, and perhaps its buffer, differ.
  ghost predicate ChangedAt(ram: Ram, r: Ram, da: nat) {
    && |r| == |ram|
    && forall x: nat :: At(r, x) != At(ram, x) ==>
         da <= x < da + 4 || Buffer(ram, da) <= x < Buffer(ram, da) + PKT_MAX
  }

  lemma LinksKept(ram: Ram, r: Ram, chain: seq<nat>, m: nat)
    requires Chain(ram, chain) && Rooms(ram, chain) && m < |chain| && ChangedAt(ram, r, chain[m])
    ensures Chain(r, chain) && Rooms(r, chain)
    ensures forall i :: 0 <= i < |chain| ==> Buffer(r, chain[i]) == Buffer(ram, chain[i])
  {
    forall i | 0 <= i < |chain|
      ensures Next(r, chain[i]) == Next(ram, chain[i]) && Buffer(r, chain[i]) == Buffer(ram, chain[i])
    {
      FieldsOfKept(ram, r, chain, m, i);
    }
    ChainKept(ram, r, chain);
    forall i | 0 <= i < |chain| ensures RoomAt(r, chain, chain[i]) {
      assert RoomAt(ram, chain, chain[i]);
    }
  }

  lemma FieldsOfKept(ram: Ram, r: Ram, chain: seq<nat>, m: nat, i: nat)
    requires Chain(ram, chain) && Rooms(ram, chain) && m < |chain| && i < |chain| && ChangedAt(ram, r, chain[m])
    ensures Next(r, chain[i]) == Next(ram, chain[i]) && Buffer(r, chain[i]) == Buffer(ram, chain[i])
    ensures i != m ==> Word(r, chain[i]) == Word(ram, chain[i]) && Owned(r, chain[i]) == Owned(ram, chain[i])
  {
    var d, da := chain[i], chain[m];
    assert d in chain && RoomAt(ram, chain, da);
    assert i != m ==> Apart(d, da);
    SameReads(r, ram, d + 8, 4);
    SameReads(r, ram, d + 12, 4);
    if i != m { SameReads(r, ram, d, 4); }
  }

  lemma ShownKept(ram: Ram, r: Ram, chain: seq<nat>, m: nat, i: nat, frame: seq<byte>)
    requires Chain(ram, chain) && Rooms(ram, chain) && m < |chain| && i < |chain| && i != m
    requires ChangedAt(ram, r, chain[m]) && Shows(ram, chain[i], frame)
    ensures Shows(r, chain[i], frame)
  {
    FieldsOfKept(ram, r, chain, m, i);
    assert ApartFrom(Buffer(ram, chain[i]), PKT_MAX, Buffer(ram, chain[m]), PKT_MAX);
    assert chain[m] in chain && RoomAt(ram, chain, chain[i]);
    SameReads(r, ram, Buffer(ram, chain[i]), |frame|);
  }

  // A placed frame is shown.
  lemma PlacedShows(ram: Ram, chain: seq<nat>, frame: seq<byte>)
    requires Chain(ram, chain) && Rooms(ram, chain) && 1 <= |frame| <= PKT_MAX
    ensures Shows(Placed(ram, chain[0], frame), chain[0], frame)
    ensures ChangedAt(ram, Placed(ram, chain[0], frame), chain[0])
  {
    var da := chain[0];
    ChainAt(ram, chain, 0);
    assert da in chain && RoomAt(ram, chain, da);
    PlacedBytes(ram, da, frame);
    PlacedContents(ram, da, frame);
    FieldsOfKept(ram, Placed(ram, da, frame), chain, 0, 0);
  }

  // A delivery puts the frame behind those that firmware has not yet taken.
  lemma DeliveryKeepsRing(ram: Ram, chain: seq<nat>, held: seq<seq<byte>>, frame: seq<byte>)
    requires RxRing(ram, chain, held) && |held| < |chain| && 1 <= |frame| <= PKT_MAX
    ensures RxRing(Placed(ram, chain[0], frame), Rotate(chain, 1), held + [frame])
  {
    var r := Placed(ram, chain[0], frame);
    PlacedShows(ram, chain, frame);
    LinksKept(ram, r, chain, 0);
    RotatedChain(r, r, chain);
    RotatedRooms(r, chain);
    OwnedAfter(ram, r, chain, held);
    ShownAfter(ram, r, chain, held, frame);
  }

  lemma OwnedAfter(ram: Ram, r: Ram, chain: seq<nat>, held: seq<seq<byte>>)
    requires RxRing(ram, chain, held) && |held| < |chain| && ChangedAt(ram, r, chain[0])
    ensures forall i {:trigger Owned(r, Rotate(chain, 1)[i])} :: 0 <= i < |chain| - |held| - 1 ==>
              Owned(r, Rotate(chain, 1)[i])
  {
    forall i | 0 <= i < |chain| - |held| - 1 ensures Owned(r, Rotate(chain, 1)[i]) {
      assert Rotate(chain, 1)[i] == chain[i + 1] && Owned(ram, chain[i + 1]);
      FieldsOfKept(ram, r, chain, 0, i + 1);
    }
  }

  lemma ShownAfter(ram: Ram, r: Ram, chain: seq<nat>, held: seq<seq<byte>>, frame: seq<byte>)
    requires RxRing(ram, chain, held) && |held| < |chain| && ChangedAt(ram, r, chain[0])
    requires Shows(r, chain[0], frame)
    ensures forall i {:trigger (held + [frame])[i]} :: 0 <= i < |held| + 1 ==>
              Shows(r, Rotate(chain, 1)[|chain| - |held| - 1 + i], (held + [frame])[i])
  {
    var q := |chain| - |held|;
    forall i | 0 <= i < |held| + 1 ensures Shows(r, Rotate(chain, 1)[q - 1 + i], (held + [frame])[i]) {
      if i < |held| {
        assert Rotate(chain, 1)[q - 1 + i] == chain[q + i] && Shows(ram, chain[q + i], held[i]);
        ShownKept(ram, r, chain, 0, q + i, held[i]);
      } else {
        assert Rotate(chain, 1)[q - 1 + i] == chain[0];
      }
    }
  }

  lemma RotatedRooms(ram: Ram, chain: seq<nat>)
    requires Rooms(ram, chain) && chain != []
    ensures Rooms(ram, Rotate(chain, 1))
  {
    var rest := Rotate(chain, 1);
    forall i | 0 <= i < |rest| ensures RoomAt(ram, rest, rest[i]) {
      var k := if i + 1 < |chain| then i + 1 else 0;
      assert rest[i] == chain[k] && RoomAt(ram, chain, chain[k]);
    }
    forall i, j | 0 <= i < |rest| && 0 <= j < |rest| && i != j
      ensures ApartFrom(Buffer(ram, rest[i]), PKT_MAX, Buffer(ram, rest[j]), PKT_MAX)
    {
      var k, l := if i + 1 < |chain| then i + 1 else 0, if j + 1 < |chain| then j + 1 else 0;
      assert rest[i] == chain[k] && rest[j] == chain[l];
    }
  }

  // Firmware gives a descriptor back.
  function GivenBack(ram: Ram, da: nat): Ram {
    WriteWord(ram, da, OWN)
  }

  lemma GivingBackKeepsRing(ram: Ram, chain: seq<nat>, held: seq<seq<byte>>)
    requires RxRing(ram, chain, held) && held != []
    ensures RxRing(GivenBack(ram, chain[|chain| - |held|]), chain, held[1..])
  {
    var q := |chain| - |held|;
    var r := GivenBack(ram, chain[q]);
    GivenBackChanges(ram, chain, q);
    LinksKept(ram, r, chain, q);
    OwnedUpTo(ram, r, chain, held);
    ShownBehind(ram, r, chain, held);
  }

  lemma GivenBackChanges(ram: Ram, chain: seq<nat>, m: nat)
    requires Chain(ram, chain) && m < |chain|
    ensures var r := GivenBack(ram, chain[m]);
            ChangedAt(ram, r, chain[m]) && Owned(r, chain[m])
  {
    ChainAt(ram, chain, m);
    WordBytes(ram, chain[m], OWN);
    WordReadBack(ram, chain[m], OWN);
    StatusWord(GivenBack(ram, chain[m]), chain[m]);
  }

  lemma OwnedUpTo(ram: Ram, r: Ram, chain: seq<nat>, held: seq<seq<byte>>)
    requires RxRing(ram, chain, held) && held != []
    requires ChangedAt(ram, r, chain[|chain| - |held|]) && Owned(r, chain[|chain| - |held|])
    ensures forall i {:trigger Owned(r, chain[i])} :: 0 <= i < |chain| - |held| + 1 ==> Owned(r, chain[i])
  {
    var q := |chain| - |held|;
    forall i | 0 <= i < q + 1 ensures Owned(r, chain[i]) {
      if i < q {
        assert Owned(ram, chain[i]);
        FieldsOfKept(ram, r, chain, q, i);
      }
    }
  }

  lemma ShownBehind(ram: Ram, r: Ram, chain: seq<nat>, held: seq<seq<byte>>)
    requires RxRing(ram, chain, held) && held != [] && ChangedAt(ram, r, chain[|chain| - |held|])
    ensures forall i {:trigger held[1..][i]} :: 0 <= i < |held| - 1 ==>
              Shows(r, chain[|chain| - |held| + 1 + i], held[1..][i])
  {
    var q := |chain| - |held|;
    forall i | 0 <= i < |held| - 1 ensures Shows(r, chain[q + 1 + i], held[1..][i]) {
      assert Shows(ram, chain[q + (i + 1)], held[i + 1]);
      ShownKept(ram, r, chain, q, q + 1 + i, held[i + 1]);
    }
  }

  // ----- Runs --------------------------------------------------------------------------

  // The device, with receive on, and a firmware that looks at one descriptor after the other:
  // when it is not owned by the device, the frame it shows is taken and it is given back.
  datatype System = System(device: Device, reader: nat, got: seq<seq<byte>>)

  //   Wire  - a frame arrives from the network
  //   Serve - the stash is served
  //   Take  - firmware looks at its next descriptor
  datatype Op = Wire(frame: seq<byte>) | Serve | Take

  function Perform(s: System, op: Op, list: nat): System {
    match op
    case Wire(frame) => s.(device := Step(s.device, Received(frame, true, list)))
    case Serve => s.(device := Step(s.device, Served(true, list)))
    case Take =>
      var ram := s.device.ram;
      if Owned(ram, s.reader) then s
      else
        System(Step(s.device, Firmware(GivenBack(ram, s.reader), s.device.cursor)), Next(ram, s.reader),
               s.got + [ReadBytes(ram, Buffer(ram, s.reader), LengthShown(ram, s.reader))])
  }

  // The frames delivered so far.
  function DeliveredOf(left: seq<(seq<byte>, Outcome)>): seq<seq<byte>> {
    if left == [] then []
    else
      var last := left[|left| - 1];
      DeliveredOf(left[..|left| - 1]) + if last.1 == Delivered then [last.0] else []
  }

  // On a ring given in chain order: the cursor stands at descriptor d mod N after d deliveries
  // and firmware at descriptor g mod N after g frames; the frames in between are shown, in
  // order, by the descriptors in between, and all others are given to the device.
  ghost predicate InOrder(s: System, ring: seq<nat>, list: nat) {
    var delivered := DeliveredOf(s.device.nic.left);
    && ring != [] && PtrInSram(s.device.ram, list) && |s.device.nic.stash| <= PKT_MAX
    && s.got <= delivered && |delivered| - |s.got| <= |ring|
    && EthRx.Start(s.device, list) == ring[|delivered| % |ring|]
    && s.reader == ring[|s.got| % |ring|]
    && RxRing(s.device.ram, Rotate(ring, |delivered| % |ring|), delivered[|s.got|..])
  }

  lemma RotateFurther(ring: seq<nat>, m: nat)
    requires m < |ring|
    ensures Rotate(Rotate(ring, m), 1) == Rotate(ring, if m + 1 < |ring| then m + 1 else 0)
    ensures Rotate(ring, m)[0] == ring[m]
  {
  }

  lemma StepsBack(d: nat, g: nat, n: nat)
    requires n > 0 && g <= d <= g + n
    ensures g % n == if d % n >= d - g then d % n - (d - g) else d % n + n - (d - g)
  {
    var q, m := d / n, d % n;
    if m >= d - g {
      DivisionIs(g, n, q, m - (d - g));
    } else {
      assert (q - 1) * n == q * n - n;
      DivisionIs(g, n, q - 1, m + n - (d - g));
    }
  }

  // Where the oldest frame that waits for firmware lies in the rotated chain.
  lemma ReaderInChain(ring: seq<nat>, d: nat, g: nat)
    requires ring != [] && g <= d <= g + |ring|
    ensures var n, chain := |ring|, Rotate(ring, d % |ring|);
            && (g < d ==> chain[n - (d - g)] == ring[g % n] && Successor(chain, n - (d - g)) == ring[(g + 1) % n])
            && (g == d ==> chain[0] == ring[g % n])
  {
    var n := |ring|;
    StepsBack(d, g, n);
    if g < d { StepsBack(d, g + 1, n); }
    InRotated(ring, d % n);
  }

  lemma InRotated(ring: seq<nat>, m: nat)
    requires m < |ring|
    ensures forall i {:trigger Rotate(ring, m)[i]} :: 0 <= i < |ring| ==>
              Rotate(ring, m)[i] == if m + i < |ring| then ring[m + i] else ring[m + i - |ring|]
  {
  }

  // The frames that firmware has yet to take lie in the descriptors that follow its own.
  lemma FrameWaits(s: System, ring: seq<nat>, list: nat, k: nat)
    requires InOrder(s, ring, list)
    requires |s.got| <= k < |DeliveredOf(s.device.nic.left)|
    ensures Shows(s.device.ram, ring[k % |ring|], DeliveredOf(s.device.nic.left)[k])
  {
    var delivered := DeliveredOf(s.device.nic.left);
    var held := delivered[|s.got|..];
    ReaderInChain(ring, |delivered|, k);
    assert held[k - |s.got|] == delivered[k];
  }

  lemma StillDelivered(left: seq<(seq<byte>, Outcome)>, frame: seq<byte>, outcome: Outcome)
    ensures DeliveredOf(left + [(frame, outcome)]) ==
            DeliveredOf(left) + if outcome == Delivered then [frame] else []
  {
    assert (left + [(frame, outcome)])[..|left|] == left;
  }

  // The frames delivered and not yet taken.
  function HeldOf(s: System): seq<seq<byte>> {
    var delivered := DeliveredOf(s.device.nic.left);
    if |s.got| <= |delivered| then delivered[|s.got|..] else []
  }

  function ChainOf(s: System, ring: seq<nat>): seq<nat>
    requires ring != []
  {
    Rotate(ring, |DeliveredOf(s.device.nic.left)| % |ring|)
  }

  // A frame in the stash finds every descriptor still held by firmware, and the hops do not
  // end where they began.
  predicate Shifts(s: System, op: Op, ring: seq<nat>) {
    op == Serve && s.device.nic.stash != [] && |HeldOf(s)| == |ring| && ring != [] && 16 % |ring| != 0
  }

  lemma DeliveryInOrder(s: System, ring: seq<nat>, list: nat)
    requires InOrder(s, ring, list) && s.device.nic.stash != [] && |HeldOf(s)| < |ring|
    ensures InOrder(Perform(s, Serve, list), ring, list)
    ensures DeliveredOf(Perform(s, Serve, list).device.nic.left) ==
            DeliveredOf(s.device.nic.left) + [s.device.nic.stash]
  {
    var chain, stash, delivered := ChainOf(s, ring), s.device.nic.stash, DeliveredOf(s.device.nic.left);
    DeliveryPlaces(s, ring, list);
    RotateFurther(ring, |delivered| % |ring|);
    NextCount(|delivered|, |ring|);
    StillDelivered(s.device.nic.left, stash, Delivered);
    assert (delivered + [stash])[|s.got|..] == HeldOf(s) + [stash];
    DeliveryKeepsRing(s.device.ram, chain, HeldOf(s), stash);
    ChainAt(Placed(s.device.ram, chain[0], stash), Rotate(chain, 1), 0);
  }

  // What the device does with a frame that finds room.
  lemma DeliveryPlaces(s: System, ring: seq<nat>, list: nat)
    requires InOrder(s, ring, list) && s.device.nic.stash != [] && |HeldOf(s)| < |ring|
    ensures var d, chain, frame := s.device, ChainOf(s, ring), s.device.nic.stash;
            Perform(s, Serve, list).device ==
            Device(Placed(d.ram, chain[0], frame), Rotate(chain, 1)[0], Leave(d.nic, Delivered))
  {
    var chain := ChainOf(s, ring);
    RotateFurther(ring, |DeliveredOf(s.device.nic.left)| % |ring|);
    assert Owned(s.device.ram, chain[0]) && RoomAt(s.device.ram, chain, chain[0]);
    FirstOwnedTakes(s.device.ram, chain, list, s.device.nic.stash, MAX_HOPS, 0);
    assert Successor(chain, 0) == Rotate(chain, 1)[0];
  }

  lemma OverflowInOrder(s: System, ring: seq<nat>, list: nat)
    requires InOrder(s, ring, list) && s.device.nic.stash != [] && |HeldOf(s)| == |ring|
    ensures DeliveredOf(Perform(s, Serve, list).device.nic.left) == DeliveredOf(s.device.nic.left)
    ensures InOrder(Perform(s, Serve, list), ring, list) <==> 16 % |ring| == 0
  {
    var t, chain, held := Perform(s, Serve, list), ChainOf(s, ring), HeldOf(s);
    var ram, m := s.device.ram, MAX_HOPS % |ring|;
    RotateFurther(ring, |DeliveredOf(s.device.nic.left)| % |ring|);
    forall j | 0 <= j < |chain| ensures !Owned(ram, chain[j]) {
      assert Shows(ram, chain[|chain| - |held| + j], held[j]);
    }
    NoneOwnedDrops(ram, chain, list, s.device.nic.stash, MAX_HOPS);
    StillDelivered(s.device.nic.left, s.device.nic.stash, NoBuffer);
    ChainAt(ram, chain, m);
    if m > 0 { ChainDistinct(ram, chain, 0, m); }
  }

  lemma TakeInOrder(s: System, ring: seq<nat>, list: nat)
    requires InOrder(s, ring, list)
    ensures var t, delivered := Perform(s, Take, list), DeliveredOf(s.device.nic.left);
            && InOrder(t, ring, list) && DeliveredOf(t.device.nic.left) == delivered
            && t.got == if |s.got| < |delivered| then delivered[..|s.got| + 1] else s.got
  {
    var chain, held, delivered := ChainOf(s, ring), HeldOf(s), DeliveredOf(s.device.nic.left);
    ReaderInChain(ring, |delivered|, |s.got|);
    if held == [] {
      assert Owned(s.device.ram, chain[0]);
    } else {
      TakenInOrder(s, ring, list);
    }
  }

  lemma TakenInOrder(s: System, ring: seq<nat>, list: nat)
    requires InOrder(s, ring, list) && HeldOf(s) != []
    ensures var t, delivered := Perform(s, Take, list), DeliveredOf(s.device.nic.left);
            InOrder(t, ring, list) && DeliveredOf(t.device.nic.left) == delivered &&
            t.got == delivered[..|s.got| + 1]
  {
    var held, delivered := HeldOf(s), DeliveredOf(s.device.nic.left);
    OldestTaken(s, ring, list);
    GivingBackKeepsRing(s.device.ram, ChainOf(s, ring), held);
    assert delivered[|s.got| + 1..] == held[1..];
    assert delivered[..|s.got| + 1] == s.got + [held[0]];
  }

  // What firmware does when a frame waits.
  lemma OldestTaken(s: System, ring: seq<nat>, list: nat)
    requires InOrder(s, ring, list) && HeldOf(s) != []
    ensures var chain, held := ChainOf(s, ring), HeldOf(s);
            Perform(s, Take, list) ==
            System(s.device.(ram := GivenBack(s.device.ram, chain[|chain| - |held|])),
                   ring[(|s.got| + 1) % |ring|], s.got + [held[0]])
  {
    var chain, held, delivered := ChainOf(s, ring), HeldOf(s), DeliveredOf(s.device.nic.left);
    ReaderInChain(ring, |delivered|, |s.got|);
    assert Shows(s.device.ram, chain[|chain| - |held| + 0], held[0]);
    ChainAt(s.device.ram, chain, |chain| - |held|);
  }

  // Every operation keeps the order, unless a frame overflows a ring whose length does not
  // divide the number of hops: then the cursor no longer stands at the oldest descriptor.
  lemma OpKeepsOrder(s: System, op: Op, ring: seq<nat>, list: nat)
    requires InOrder(s, ring, list)
    ensures InOrder(Perform(s, op, list), ring, list) <==> !Shifts(s, op, ring)
  {
    match op
    case Wire(frame) =>
    case Serve =>
      if s.device.nic.stash != [] {
        if |HeldOf(s)| < |ring| { DeliveryInOrder(s, ring, list); } else { OverflowInOrder(s, ring, list); }
      }
    case Take => TakeInOrder(s, ring, list);
  }

  ghost predicate Operated(systems: seq<System>, ops: seq<Op>, list: nat) {
    && |systems| == |ops| + 1
    && forall i {:trigger ops[i]} :: 0 <= i < |ops| ==> systems[i + 1] == Perform(systems[i], ops[i], list)
  }

  // In every run from such a state firmware gets the delivered frames, whole and in their
  // order, as long as no frame overflows a ring whose length does not divide 16.
  lemma {:induction false} FirmwareGetsInOrder(systems: seq<System>, ops: seq<Op>, ring: seq<nat>, list: nat, k: nat)
    requires Operated(systems, ops, list) && k < |systems| && InOrder(systems[0], ring, list)
    requires forall i :: 0 <= i < k ==> !Shifts(systems[i], ops[i], ring)
    ensures InOrder(systems[k], ring, list)
    ensures systems[k].got <= DeliveredOf(systems[k].device.nic.left)
  {
    if k > 0 {
      FirmwareGetsInOrder(systems, ops, ring, list, k - 1);
      OpKeepsOrder(systems[k - 1], ops[k - 1], ring, list);
    }
  }

  // Three descriptors, all held by firmware: the sixteen hops end at the second one.
  lemma OverflowOfThree(ram: Ram, chain: seq<nat>, base: nat, frame: seq<byte>)
    requires Chain(ram, chain) && |chain| == 3 && forall j :: 0 <= j < 3 ==> !Owned(ram, chain[j])
    ensures Deliver(ram, chain[0], base, frame, MAX_HOPS) == Delivery(ram, chain[1], NoBuffer)
  {
    NoneOwnedDrops(ram, chain, base, frame, MAX_HOPS);
  }
}
