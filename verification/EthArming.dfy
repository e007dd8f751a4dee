// How firmware queues a frame for transmission: it fills a free buffer, writes control word
// and buffer address into the first free descriptor, and sets OWN last.
module EthArming {
  import opened Basics
  import opened EthDescriptors
  import opened EthTx
  import opened GuestMemory

  // The three words of a descriptor, OWN last.
  function Arm(ram: Ram, da: nat, control: nat, buffer: nat, status: nat): Ram {
    WriteWord(WriteWord(WriteWord(ram, da + 4, control), da + 8, buffer), da, status)
  }

  lemma WordBytes(ram: Ram, a: nat, w: nat)
    ensures forall x: nat :: At(WriteWord(ram, a, w), x) ==
              if a <= x < a + 4 && Mapped(ram, x) then ToBytes(w, 4)[x - a] else At(ram, x)
    ensures |WriteWord(ram, a, w)| == |ram|
  {
    WrittenBytes(ram, a, ToBytes(w, 4));
  }

  lemma WordReadBack(ram: Ram, a: nat, w: nat)
    requires SpanInSram(ram, a, 4) && w < 0x1_0000_0000
    ensures Word(WriteWord(ram, a, w), a) == w
  {
    WordBytes(ram, a, w);
    var r := WriteWord(ram, a, w);
    assert ReadBytes(r, a, 4) == ToBytes(w, 4) by {
      forall i | 0 <= i < 4 ensures ReadBytes(r, a, 4)[i] == ToBytes(w, 4)[i] {
        assert At(r, a + i) == ToBytes(w, 4)[i];
      }
    }
    WordRoundTrip(w);
  }

  // Bytes outside the first twelve of the descriptor are as before.
  lemma ArmElsewhere(ram: Ram, da: nat, control: nat, buffer: nat, status: nat)
    ensures |Arm(ram, da, control, buffer, status)| == |ram|
    ensures forall x: nat :: x < da || da + 12 <= x ==> At(Arm(ram, da, control, buffer, status), x) == At(ram, x)
  {
    var one := WriteWord(ram, da + 4, control);
    WordBytes(ram, da + 4, control);
    WordBytes(one, da + 8, buffer);
    WordBytes(WriteWord(one, da + 8, buffer), da, status);
  }

  lemma SameReads(r: Ram, ram: Ram, a: nat, len: nat)
    requires forall x: nat :: a <= x < a + len ==> At(r, x) == At(ram, x)
    ensures ReadBytes(r, a, len) == ReadBytes(ram, a, len)
  {
    forall i | 0 <= i < len ensures ReadBytes(r, a, len)[i] == ReadBytes(ram, a, len)[i] {
      assert At(r, a + i) == At(ram, a + i);
    }
  }

  // The armed descriptor reads back as it was written, its link untouched.
  lemma ArmFields(ram: Ram, da: nat, control: nat, buffer: nat, status: nat)
    requires SpanInSram(ram, da, 16)
    requires control < 0x1_0000_0000 && buffer < 0x1_0000_0000 && OWN <= status < 0x1_0000_0000
    ensures var r := Arm(ram, da, control, buffer, status);
            && Owned(r, da) && BufferLength(r, da) == control % 0x2000 && Buffer(r, da) == buffer
            && Next(r, da) == Next(ram, da) && ChecksumField(r, da) == status / 0x40_0000 % 4
  {
    var one := WriteWord(ram, da + 4, control);
    var two := WriteWord(one, da + 8, buffer);
    var r := WriteWord(two, da, status);
    WordBytes(ram, da + 4, control);
    WordBytes(one, da + 8, buffer);
    WordBytes(two, da, status);
    WordReadBack(ram, da + 4, control);
    WordReadBack(one, da + 8, buffer);
    WordReadBack(two, da, status);
    SameReads(r, one, da + 4, 4);
    SameReads(r, two, da + 8, 4);
    SameReads(r, ram, da + 12, 4);
    StatusWord(r, da);
    ControlWord(r, da);
  }

  // ----- Memory that keeps the queue ---------------------------------------------------

  ghost predicate ApartFrom(a: nat, len: nat, b: nat, size: nat) {
    a + len <= b || b + size <= a
  }

  // What firmware may write without disturbing the queue: memory outside all descriptors
  // and outside the buffers of the queued ones.
  ghost predicate Spare(ram: Ram, chain: seq<nat>, q: nat, a: nat, len: nat)
    requires q <= |chain|
  {
    && (forall d :: d in chain ==> ApartFrom(a, len, d, 16))
    && forall i {:trigger Buffer(ram, chain[i])} :: 0 <= i < q ==>
         ApartFrom(a, len, Buffer(ram, chain[i]), BufferLength(ram, chain[i]))
  }

  // Only bytes of one range differ.
  ghost predicate ChangedOnly(ram: Ram, r: Ram, a: nat, len: nat) {
    |r| == |ram| && forall x: nat :: x < a || a + len <= x ==> At(r, x) == At(ram, x)
  }

  lemma FieldsKept(ram: Ram, r: Ram, a: nat, len: nat, d: nat)
    requires ChangedOnly(ram, r, a, len) && ApartFrom(a, len, d, 16)
    ensures Owned(r, d) == Owned(ram, d) && BufferLength(r, d) == BufferLength(ram, d)
    ensures Buffer(r, d) == Buffer(ram, d) && Next(r, d) == Next(ram, d)
    ensures ChecksumField(r, d) == ChecksumField(ram, d)
  {
    SameReads(r, ram, d + 8, 4);
    SameReads(r, ram, d + 12, 4);
  }

  lemma QueuedKept(ram: Ram, r: Ram, chain: seq<nat>, a: nat, len: nat, d: nat)
    requires ChangedOnly(ram, r, a, len) && ApartFrom(a, len, d, 16) && Armed(ram, chain, d)
    requires ApartFrom(a, len, Buffer(ram, d), BufferLength(ram, d))
    ensures Armed(r, chain, d) && FrameOf(r, d) == FrameOf(ram, d)
  {
    FieldsKept(ram, r, a, len, d);
    SameReads(r, ram, Buffer(ram, d), BufferLength(ram, d));
  }

  // Filling a spare buffer leaves the queue and its frames as they are.
  lemma SpareWriteKeepsQueue(ram: Ram, chain: seq<nat>, q: nat, a: nat, data: seq<byte>)
    requires Queue(ram, chain, q) && Spare(ram, chain, q, a, |data|)
    ensures var r := WriteBytes(ram, a, data);
            Queue(r, chain, q) && Frames(r, chain[..q]) == Frames(ram, chain[..q])
  {
    var r := WriteBytes(ram, a, data);
    WrittenBytes(ram, a, data);
    forall i | 0 <= i < |chain|
      ensures Next(r, chain[i]) == Next(ram, chain[i]) && Owned(r, chain[i]) == Owned(ram, chain[i])
    {
      FieldsKept(ram, r, a, |data|, chain[i]);
    }
    forall i | 0 <= i < q
      ensures Armed(r, chain, chain[i]) && FrameOf(r, chain[i]) == FrameOf(ram, chain[i])
    {
      QueueAt(ram, chain, q, i);
      QueuedKept(ram, r, chain, a, |data|, chain[i]);
    }
    ChainKept(ram, r, chain);
  }

  lemma ChainKept(ram: Ram, r: Ram, chain: seq<nat>)
    requires Chain(ram, chain) && |r| == |ram|
    requires forall i {:trigger Next(r, chain[i])} :: 0 <= i < |chain| ==> Next(r, chain[i]) == Next(ram, chain[i])
    ensures Chain(r, chain)
  {
    forall i | 0 <= i < |chain| ensures SpanInSram(r, chain[i], 16) && Next(r, chain[i]) == Successor(chain, i) {
      ChainAt(ram, chain, i);
    }
    forall i, j | 0 <= i < |chain| && 0 <= j < |chain| && i != j ensures Apart(chain[i], chain[j]) {
    }
  }

  // ----- Arming ------------------------------------------------------------------------

  // A legal request: a length and a buffer in SRAM that touches no descriptor.
  ghost predicate Legal(ram: Ram, chain: seq<nat>, control: nat, buffer: nat, status: nat) {
    && control < 0x1_0000_0000 && buffer < 0x1_0000_0000 && OWN <= status < 0x1_0000_0000
    && 1 <= control % 0x2000 <= 2048
    && SpanInSram(ram, buffer, control % 0x2000)
    && forall d :: d in chain ==> ApartFrom(buffer, control % 0x2000, d, 16)
  }

  // Arming the first descriptor behind the queue, when the one behind it is free or the ring
  // is full with it, makes the queue longer by exactly the frame in the given buffer.
  lemma ArmExtendsQueue(ram: Ram, chain: seq<nat>, q: nat, control: nat, buffer: nat, status: nat)
    requires Queue(ram, chain, q) && q < |chain| && (q + 1 < |chain| ==> !Owned(ram, chain[q + 1]))
    requires Legal(ram, chain, control, buffer, status)
    ensures var r := Arm(ram, chain[q], control, buffer, status);
            var frame := Frame(status / 0x40_0000 % 4, ReadBytes(ram, buffer, control % 0x2000));
            Queue(r, chain, q + 1) && Frames(r, chain[..q + 1]) == Frames(ram, chain[..q]) + [frame]
  {
    var r := Arm(ram, chain[q], control, buffer, status);
    ChainAt(ram, chain, q);
    ArmElsewhere(ram, chain[q], control, buffer, status);
    ArmedThere(ram, chain, q, control, buffer, status);
    OthersKept(ram, r, chain, q);
    QueueGrown(ram, r, chain, q);
  }

  lemma ArmedThere(ram: Ram, chain: seq<nat>, q: nat, control: nat, buffer: nat, status: nat)
    requires q < |chain| && SpanInSram(ram, chain[q], 16) && Legal(ram, chain, control, buffer, status)
    ensures var r := Arm(ram, chain[q], control, buffer, status);
            && Armed(r, chain, chain[q]) && Next(r, chain[q]) == Next(ram, chain[q])
            && FrameOf(r, chain[q]) ==
               Frame(status / 0x40_0000 % 4, ReadBytes(ram, buffer, control % 0x2000))
  {
    var da, r := chain[q], Arm(ram, chain[q], control, buffer, status);
    assert da in chain;
    ArmElsewhere(ram, da, control, buffer, status);
    ArmFields(ram, da, control, buffer, status);
    SameReads(r, ram, buffer, control % 0x2000);
  }

  lemma QueueGrown(ram: Ram, r: Ram, chain: seq<nat>, q: nat)
    requires Queue(ram, chain, q) && q < |chain| && |r| == |ram|
    requires Armed(r, chain, chain[q]) && Next(r, chain[q]) == Next(ram, chain[q])
    requires forall i :: 0 <= i < |chain| && i != q ==>
               Next(r, chain[i]) == Next(ram, chain[i]) && Owned(r, chain[i]) == Owned(ram, chain[i])
    requires forall i :: 0 <= i < q ==> Armed(r, chain, chain[i]) && FrameOf(r, chain[i]) == FrameOf(ram, chain[i])
    requires q + 1 < |chain| ==> !Owned(ram, chain[q + 1])
    ensures Queue(r, chain, q + 1)
    ensures Frames(r, chain[..q + 1]) == Frames(ram, chain[..q]) + [FrameOf(r, chain[q])]
  {
    forall i | 0 <= i < |chain| ensures Next(r, chain[i]) == Next(ram, chain[i]) { }
    ChainKept(ram, r, chain);
    forall i | 0 <= i < q + 1 ensures Armed(r, chain, chain[i]) { }
  }

  lemma OthersKept(ram: Ram, r: Ram, chain: seq<nat>, q: nat)
    requires Queue(ram, chain, q) && q < |chain| && ChangedOnly(ram, r, chain[q], 12)
    ensures forall i :: 0 <= i < |chain| && i != q ==>
              Next(r, chain[i]) == Next(ram, chain[i]) && Owned(r, chain[i]) == Owned(ram, chain[i])
    ensures forall i :: 0 <= i < q ==>
              Armed(r, chain, chain[i]) && FrameOf(r, chain[i]) == FrameOf(ram, chain[i])
  {
    forall i | 0 <= i < |chain| && i != q
      ensures Next(r, chain[i]) == Next(ram, chain[i]) && Owned(r, chain[i]) == Owned(ram, chain[i])
    {
      assert Apart(chain[i], chain[q]);
      FieldsKept(ram, r, chain[q], 12, chain[i]);
    }
    forall i | 0 <= i < q
      ensures Armed(r, chain, chain[i]) && FrameOf(r, chain[i]) == FrameOf(ram, chain[i])
    {
      QueueAt(ram, chain, q, i);
      assert Apart(chain[i], chain[q]) && chain[q] in chain;
      QueuedKept(ram, r, chain, chain[q], 12, chain[i]);
    }
  }

  // ----- Both are steps of the FIFO ----------------------------------------------------

  // Filling a spare buffer arms nothing.
  lemma FillIsFirmwareStep(l: Link, q: nat, a: nat, data: seq<byte>)
    requires Queue(l.tx.ram, l.chain, q) && l.tx.cursor == l.chain[0]
    requires Spare(l.tx.ram, l.chain, q, a, |data|)
    ensures FirmwareStep(l, l.(tx := l.tx.(ram := WriteBytes(l.tx.ram, a, data))))
  {
    var r := WriteBytes(l.tx.ram, a, data);
    var queue := Frames(l.tx.ram, l.chain[..q]);
    SpareWriteKeepsQueue(l.tx.ram, l.chain, q, a, data);
    QueuedIs(l.tx.ram, l.chain, q);
    QueuedIs(r, l.chain, q);
    var more: seq<Frame> := [];
    assert queue + more == queue && l.armed + more == l.armed;
    assert AtQueue(l.tx.(ram := r), l.chain, queue + more);
  }

  // Arming a descriptor arms exactly its frame.
  lemma ArmIsFirmwareStep(l: Link, q: nat, control: nat, buffer: nat, status: nat)
    requires Queue(l.tx.ram, l.chain, q) && l.tx.cursor == l.chain[0]
    requires q < |l.chain| && (q + 1 < |l.chain| ==> !Owned(l.tx.ram, l.chain[q + 1]))
    requires Legal(l.tx.ram, l.chain, control, buffer, status)
    ensures var frame := Frame(status / 0x40_0000 % 4, ReadBytes(l.tx.ram, buffer, control % 0x2000));
            FirmwareStep(l, Link(l.tx.(ram := Arm(l.tx.ram, l.chain[q], control, buffer, status)), l.chain,
                                 l.armed + [frame]))
  {
    var r := Arm(l.tx.ram, l.chain[q], control, buffer, status);
    var frame := Frame(status / 0x40_0000 % 4, ReadBytes(l.tx.ram, buffer, control % 0x2000));
    var queue := Frames(l.tx.ram, l.chain[..q]);
    ArmExtendsQueue(l.tx.ram, l.chain, q, control, buffer, status);
    QueuedIs(l.tx.ram, l.chain, q);
    QueuedIs(r, l.chain, q + 1);
    assert AtQueue(l.tx.(ram := r), l.chain, queue + [frame]);
  }
}
