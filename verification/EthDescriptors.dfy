// DWMAC transmit descriptors: the words of one descriptor, and a well-formed chain of them.
module EthDescriptors {
  import opened Basics
  import opened GuestMemory

  const PKT_MAX: nat := 2048
  const OWN: nat := 0x8000_0000

  // A frame handed to the network: its bytes and the checksum-insertion field that was
  // requested for it.
  datatype Frame = Frame(cic: nat, data: seq<byte>)

  // Status bit 31.
  predicate Owned(ram: Ram, da: nat) {
    At(ram, da + 3) >= 128
  }

  // The low 13 bits of the control word.
  function BufferLength(ram: Ram, da: nat): nat {
    At(ram, da + 4) + 0x100 * (At(ram, da + 5) % 32)
  }

  // Status bits 22 and 23.
  function ChecksumField(ram: Ram, da: nat): nat {
    At(ram, da + 2) / 64
  }

  function Buffer(ram: Ram, da: nat): nat {
    Word(ram, da + 8)
  }

  function Next(ram: Ram, da: nat): nat {
    Word(ram, da + 12)
  }

  function NextOr(ram: Ram, da: nat, base: nat): nat {
    if PtrInSram(ram, Next(ram, da)) then Next(ram, da) else base
  }

  function FrameOf(ram: Ram, da: nat): Frame {
    Frame(ChecksumField(ram, da), ReadBytes(ram, Buffer(ram, da), BufferLength(ram, da)))
  }

  // Only the OWN bit cleared.
  function Disowned(ram: Ram, da: nat): Ram
    requires Owned(ram, da)
  {
    Poke(ram, da + 3, At(ram, da + 3) - 128)
  }

  // The fields above in terms of the 32-bit words that the device reads and writes.
  lemma StatusWord(ram: Ram, da: nat)
    ensures Word(ram, da) < 0x1_0000_0000
    ensures Owned(ram, da) <==> Word(ram, da) >= OWN
    ensures ChecksumField(ram, da) == Word(ram, da) / 0x40_0000 % 4
  {
    WordAt(ram, da);
    StatusFields(At(ram, da), At(ram, da + 1), At(ram, da + 2), At(ram, da + 3));
  }

  lemma StatusFields(b0: byte, b1: byte, b2: byte, b3: byte)
    ensures (b0 + 0x100 * b1 + 0x1_0000 * b2 + 0x100_0000 * b3) / 0x40_0000 % 4 == b2 / 64
  {
    var low: nat, high: nat := b0 + 0x100 * b1 + 0x1_0000 * (b2 % 64), b2 / 64 + 4 * b3;
    assert b0 + 0x100 * b1 + 0x1_0000 * b2 + 0x100_0000 * b3 == low + 0x40_0000 * high;
  }

  lemma StatusWritten(ram: Ram, da: nat)
    requires Owned(ram, da)
    ensures Word(ram, da) >= OWN && Disowned(ram, da) == WriteWord(ram, da, Word(ram, da) - OWN)
  {
    StatusWord(ram, da);
    WordAt(ram, da);
    var bs: seq<byte> := [At(ram, da), At(ram, da + 1), At(ram, da + 2), At(ram, da + 3) - 128];
    FourBytes(bs[0], bs[1], bs[2], bs[3]);
    BytesRoundTrip(bs);
    assert ToBytes(Word(ram, da) - OWN, 4) == bs;
    WrittenBytes(ram, da, bs);
    forall x: nat ensures At(WriteBytes(ram, da, bs), x) == At(Disowned(ram, da), x) {
      if da <= x < da + 4 {
        assert x == da || x == da + 1 || x == da + 2 || x == da + 3;
      }
    }
    SameBytes(WriteBytes(ram, da, bs), Disowned(ram, da));
  }

  lemma ControlWord(ram: Ram, da: nat)
    ensures BufferLength(ram, da) == Word(ram, da + 4) % 0x2000
  {
    WordAt(ram, da + 4);
    LengthField(At(ram, da + 4), At(ram, da + 5), At(ram, da + 6), At(ram, da + 7));
  }

  lemma LengthField(b0: byte, b1: byte, b2: byte, b3: byte)
    ensures (b0 + 0x100 * b1 + 0x1_0000 * b2 + 0x100_0000 * b3) % 0x2000 == b0 + 0x100 * (b1 % 32)
  {
  }

  // ----- A well-formed chain -----------------------------------------------------------

  // The descriptors in chain order, starting at the cursor; the last links to the first.
  ghost predicate Chain(ram: Ram, chain: seq<nat>) {
    && chain != []
    && (forall i {:trigger SpanInSram(ram, chain[i], 16)} :: 0 <= i < |chain| ==>
          SpanInSram(ram, chain[i], 16))
    && (forall i, j {:trigger Apart(chain[i], chain[j])} :: 0 <= i < |chain| && 0 <= j < |chain| && i != j ==>
          Apart(chain[i], chain[j]))
    && (forall i {:trigger Next(ram, chain[i])} :: 0 <= i < |chain| ==>
          Next(ram, chain[i]) == Successor(chain, i))
  }

  predicate Apart(d: nat, e: nat) {
    d + 16 <= e || e + 16 <= d
  }

  function Successor(chain: seq<nat>, i: nat): nat
    requires i < |chain|
  {
    if i + 1 < |chain| then chain[i + 1] else chain[0]
  }

  lemma ChainAt(ram: Ram, chain: seq<nat>, i: nat)
    requires Chain(ram, chain) && i < |chain|
    ensures SpanInSram(ram, chain[i], 16) && PtrInSram(ram, chain[i])
    ensures Next(ram, chain[i]) == Successor(chain, i)
    ensures i > 0 ==> Apart(chain[i], chain[0])
  {
  }

  // The cursor behind the first descriptor.
  lemma NextOfChain(ram: Ram, chain: seq<nat>, base: nat)
    requires Chain(ram, chain)
    ensures PtrInSram(ram, chain[0]) && NextOr(ram, chain[0], base) == Rotate(chain, 1)[0]
  {
    ChainAt(ram, chain, 0);
    assert Successor(chain, 0) == Rotate(chain, 1)[0];
    if |chain| > 1 { ChainAt(ram, chain, 1); }
  }

  lemma QueueAt(ram: Ram, chain: seq<nat>, q: nat, i: nat)
    requires Queue(ram, chain, q) && i < q
    ensures Armed(ram, chain, chain[i])
  {
  }

  // A descriptor ready to send: owned, with a legal length and a buffer in SRAM that
  // touches no descriptor.
  ghost predicate Armed(ram: Ram, chain: seq<nat>, da: nat) {
    && Owned(ram, da)
    && 1 <= BufferLength(ram, da) <= PKT_MAX
    && SpanInSram(ram, Buffer(ram, da), BufferLength(ram, da))
    && forall d :: d in chain ==>
         d + 16 <= Buffer(ram, da) || Buffer(ram, da) + BufferLength(ram, da) <= d
  }

  // The first q descriptors are armed and the run of owned descriptors ends there.
  ghost predicate Queue(ram: Ram, chain: seq<nat>, q: nat) {
    && Chain(ram, chain)
    && q <= |chain|
    && (forall i {:trigger Armed(ram, chain, chain[i])} :: 0 <= i < q ==> Armed(ram, chain, chain[i]))
    && (q < |chain| ==> !Owned(ram, chain[q]))
  }

  function Frames(ram: Ram, das: seq<nat>): seq<Frame> {
    seq(|das|, i requires 0 <= i < |das| => FrameOf(ram, das[i]))
  }

  function Rotate(chain: seq<nat>, m: nat): seq<nat>
    requires m <= |chain|
  {
    chain[m..] + chain[..m]
  }

  // The OWN bits of several descriptors cleared, one after the other.
  function DisownAll(ram: Ram, das: seq<nat>): Ram
    decreases |das|
  {
    if das == [] then ram
    else DisownAll(if Owned(ram, das[0]) then Disowned(ram, das[0]) else ram, das[1..])
  }

  // Where the OWN bits of the given descriptors live.
  function OwnBytes(das: seq<nat>): set<nat> {
    if das == [] then {} else {das[0] + 3} + OwnBytes(das[1..])
  }

  lemma {:induction false} NotOwnByte(das: seq<nat>, da: nat)
    requires da !in das
    ensures da + 3 !in OwnBytes(das)
  {
    if das != [] { NotOwnByte(das[1..], da); }
  }

  // Only those bits differ.
  ghost predicate OnlyDisowned(before: Ram, after: Ram, own: set<nat>) {
    && |before| == |after|
    && forall x: nat :: At(after, x) == if x in own then At(before, x) - 128 else At(before, x)
  }

  lemma DisownBytes(ram: Ram, da: nat)
    requires Owned(ram, da)
    ensures |Disowned(ram, da)| == |ram|
    ensures forall x: nat :: At(Disowned(ram, da), x) == if x == da + 3 then At(ram, x) - 128 else At(ram, x)
  {
  }

  // ----- One descriptor ----------------------------------------------------------------

  lemma {:induction false} DisownAllBytes(ram: Ram, das: seq<nat>)
    requires forall i :: 0 <= i < |das| ==> Owned(ram, das[i])
    requires forall i, j :: 0 <= i < j < |das| ==> das[i] != das[j]
    ensures OnlyDisowned(ram, DisownAll(ram, das), OwnBytes(das))
    decreases |das|
  {
    if das != [] {
      var one := Disowned(ram, das[0]);
      DisownBytes(ram, das[0]);
      NotOwnByte(das[1..], das[0]);
      DisownAllBytes(one, das[1..]);
    }
  }

  lemma ChainDistinct(ram: Ram, chain: seq<nat>, i: nat, j: nat)
    requires Chain(ram, chain) && i < j < |chain|
    ensures chain[i] != chain[j]
  {
    assert Apart(chain[i], chain[j]);
  }

  lemma BytesKept(ram: Ram, da: nat, a: nat, len: nat)
    requires Owned(ram, da)
    requires a + len <= da + 3 || da + 3 < a
    ensures ReadBytes(Disowned(ram, da), a, len) == ReadBytes(ram, a, len)
  {
    var r, s := ReadBytes(Disowned(ram, da), a, len), ReadBytes(ram, a, len);
    forall i | 0 <= i < len ensures r[i] == s[i] {
      assert At(Disowned(ram, da), a + i) == At(ram, a + i);
    }
  }

  lemma DescriptorKept(ram: Ram, da: nat, d: nat)
    requires Owned(ram, da) && SpanInSram(ram, da, 16)
    requires Apart(d, da)
    ensures var r := Disowned(ram, da);
            Owned(r, d) == Owned(ram, d) && BufferLength(r, d) == BufferLength(ram, d) &&
            Buffer(r, d) == Buffer(ram, d) && Next(r, d) == Next(ram, d)
  {
    BytesKept(ram, da, d + 8, 4);
    BytesKept(ram, da, d + 12, 4);
  }

  lemma FrameKept(ram: Ram, da: nat, d: nat)
    requires Owned(ram, da) && SpanInSram(ram, da, 16)
    requires Apart(d, da)
    requires da + 16 <= Buffer(ram, d) || Buffer(ram, d) + BufferLength(ram, d) <= da
    ensures FrameOf(Disowned(ram, da), d) == FrameOf(ram, d)
  {
    DescriptorKept(ram, da, d);
    BytesKept(ram, da, Buffer(ram, d), BufferLength(ram, d));
  }

  lemma SelfDisowned(ram: Ram, da: nat)
    requires Owned(ram, da) && SpanInSram(ram, da, 16)
    ensures !Owned(Disowned(ram, da), da) && Next(Disowned(ram, da), da) == Next(ram, da)
  {
    DisownBytes(ram, da);
    BytesKept(ram, da, da + 12, 4);
  }

  lemma ArmedKept(ram: Ram, chain: seq<nat>, r: seq<nat>, da: nat, d: nat)
    requires Owned(ram, da) && SpanInSram(ram, da, 16) && da in chain
    requires Apart(d, da)
    requires Armed(ram, chain, d) && forall x :: x in r ==> x in chain
    ensures FrameOf(Disowned(ram, da), d) == FrameOf(ram, d)
    ensures Armed(Disowned(ram, da), r, d)
  {
    DescriptorKept(ram, da, d);
    DisownBytes(ram, da);
    FrameKept(ram, da, d);
  }

  lemma StepKeepsArmed(ram: Ram, chain: seq<nat>, q: nat, i: nat)
    requires Queue(ram, chain, q) && 1 <= i < q && Owned(ram, chain[0])
    ensures FrameOf(Disowned(ram, chain[0]), chain[i]) == FrameOf(ram, chain[i])
    ensures Armed(Disowned(ram, chain[0]), Rotate(chain, 1), chain[i])
  {
    QueueAt(ram, chain, q, 0);
    QueueAt(ram, chain, q, i);
    ChainAt(ram, chain, 0);
    ChainAt(ram, chain, i);
    ArmedKept(ram, chain, Rotate(chain, 1), chain[0], chain[i]);
  }

  lemma StepEndsQueue(ram: Ram, chain: seq<nat>, q: nat)
    requires Queue(ram, chain, q) && q > 0 && Owned(ram, chain[0])
    ensures !Owned(Disowned(ram, chain[0]), Rotate(chain, 1)[q - 1])
  {
  }

  // Sending the head of the queue leaves a queue that is one shorter.
  lemma StepKeepsQueue(ram: Ram, chain: seq<nat>, q: nat)
    requires Queue(ram, chain, q) && q > 0 && Owned(ram, chain[0])
    ensures Queue(Disowned(ram, chain[0]), Rotate(chain, 1), q - 1)
    ensures Frames(Disowned(ram, chain[0]), chain[1..q]) == Frames(ram, chain[1..q])
  {
    var r := Rotate(chain, 1);
    QueueAt(ram, chain, q, 0);
    StepKeepsChain(ram, chain);
    StepEndsQueue(ram, chain, q);
    forall i | 1 <= i < q
      ensures Armed(Disowned(ram, chain[0]), r, chain[i])
      ensures FrameOf(Disowned(ram, chain[0]), chain[i]) == FrameOf(ram, chain[i])
    {
      StepKeepsArmed(ram, chain, q, i);
    }
    forall i | 0 <= i < q - 1 ensures Armed(Disowned(ram, chain[0]), r, r[i]) {
      assert r[i] == chain[i + 1];
    }
  }

  lemma StepKeepsChain(ram: Ram, chain: seq<nat>)
    requires Chain(ram, chain) && Owned(ram, chain[0])
    ensures Chain(Disowned(ram, chain[0]), Rotate(chain, 1))
  {
    var after := Disowned(ram, chain[0]);
    ChainAt(ram, chain, 0);
    DisownBytes(ram, chain[0]);
    SelfDisowned(ram, chain[0]);
    forall i | 0 <= i < |chain| ensures Next(after, chain[i]) == Next(ram, chain[i]) {
      ChainAt(ram, chain, i);
      if i > 0 { DescriptorKept(ram, chain[0], chain[i]); }
    }
    RotatedChain(ram, after, chain);
  }

  lemma RotatedChain(ram: Ram, after: Ram, chain: seq<nat>)
    requires Chain(ram, chain) && |after| == |ram|
    requires forall i {:trigger Next(after, chain[i])} :: 0 <= i < |chain| ==>
               Next(after, chain[i]) == Next(ram, chain[i])
    ensures Chain(after, Rotate(chain, 1))
  {
    var r := Rotate(chain, 1);
    forall i | 0 <= i < |r|
      ensures SpanInSram(after, r[i], 16) && Next(after, r[i]) == Successor(r, i)
    {
      var k := if i + 1 < |chain| then i + 1 else 0;
      assert r[i] == chain[k] && Successor(r, i) == Successor(chain, k);
      ChainAt(ram, chain, k);
      assert Next(after, chain[k]) == Next(ram, chain[k]);
    }
    forall i, j | 0 <= i < |r| && 0 <= j < |r| && i != j ensures Apart(r[i], r[j]) {
      var k, l := if i + 1 < |chain| then i + 1 else 0, if j + 1 < |chain| then j + 1 else 0;
      assert r[i] == chain[k] && r[j] == chain[l] && Apart(chain[k], chain[l]);
    }
  }

  // ----- The queue as a value ----------------------------------------------------------

  // The frames waiting in a well-formed chain, from its first descriptor on.
  ghost function Queued(ram: Ram, chain: seq<nat>): Option<seq<Frame>> {
    if exists q: nat :: Queue(ram, chain, q) then
      var q: nat :| Queue(ram, chain, q);
      Some(Frames(ram, chain[..q]))
    else None
  }

  lemma QueuedIs(ram: Ram, chain: seq<nat>, q: nat)
    requires Queue(ram, chain, q)
    ensures Queued(ram, chain) == Some(Frames(ram, chain[..q]))
  {
    forall p: nat | Queue(ram, chain, p) ensures p == q {
      if p < q { QueueAt(ram, chain, q, p); }
      if q < p { QueueAt(ram, chain, p, q); }
    }
  }

  lemma QueuedLength(ram: Ram, chain: seq<nat>) returns (q: nat)
    requires Queued(ram, chain).Some?
    ensures Queue(ram, chain, q) && Queued(ram, chain) == Some(Frames(ram, chain[..q]))
    ensures q == |Queued(ram, chain).value|
  {
    q :| Queue(ram, chain, q);
    QueuedIs(ram, chain, q);
  }

  // Sending the head of a non-empty queue.
  lemma HeadOfQueue(ram: Ram, chain: seq<nat>)
    requires Queued(ram, chain).Some? && Queued(ram, chain).value != []
    ensures chain != [] && Owned(ram, chain[0])
    ensures Queued(ram, chain).value[0] == FrameOf(ram, chain[0])
    ensures Queued(Disowned(ram, chain[0]), Rotate(chain, 1)) == Some(Queued(ram, chain).value[1..])
  {
    var q := QueuedLength(ram, chain);
    QueueAt(ram, chain, q, 0);
    StepKeepsQueue(ram, chain, q);
    var after, rest := Disowned(ram, chain[0]), Rotate(chain, 1);
    QueuedIs(after, rest, q - 1);
    assert rest[..q - 1] == chain[1..q];
    assert Frames(ram, chain[..q])[1..] == Frames(ram, chain[1..q]);
  }
}
