// The CRC unit: the 32-step word update, the data register, and what it means.
module Crc {
  import opened Gf2

  const POLY: bv32 := 0x04C1_1DB7
  const INIT: bv32 := 0xFFFF_FFFF

  predicate Top(c: bv32) { c & 0x8000_0000 != 0 }

  function Step(c: bv32): bv32 {
    if Top(c) then (c << 1) ^ POLY else c << 1
  }

  function Steps(c: bv32, n: nat): bv32
    decreases n
  {
    if n == 0 then c else Step(Steps(c, n - 1))
  }

  // The register after one more word.
  function Update(c: bv32, w: bv32): bv32 { Steps(c ^ w, 32) }

  // The register after some words.
  function Register(init: bv32, words: seq<bv32>): bv32 {
    if words == [] then init
    else Update(Register(init, words[..|words| - 1]), words[|words| - 1])
  }

  lemma RegisterLast(init: bv32, front: seq<bv32>, w: bv32)
    ensures Register(init, front + [w]) == Update(Register(init, front), w)
  {
  }

  // One turn of the bit loop.
  method Turn(c: bv32) returns (r: bv32)
    ensures r == Step(c)
  {
    if c & 0x8000_0000 != 0 {
      r := (c << 1) ^ POLY;
    } else {
      r := c << 1;
    }
  }

  // ch32_crc32_word
  method Word(crc: bv32, data: bv32) returns (r: bv32)
    ensures r == Update(crc, data)
  {
    r := crc ^ data;
    for i := 0 to 32
      invariant r == Steps(crc ^ data, i)
    {
      r := Turn(r);
    }
  }

  class Unit {
    var dataRegister: bv32
    ghost var words: seq<bv32>      // written since the last reset

    ghost predicate Valid()
      reads this
    {
      dataRegister == Register(INIT, words)
    }

    constructor ()
      ensures Valid() && words == []
    {
      dataRegister, words := INIT, [];
    }

    method WriteData(v: bv32)
      requires Valid()
      modifies this
      ensures Valid() && words == old(words) + [v]
    {
      dataRegister := Word(dataRegister, v);
      RegisterLast(INIT, words, v);
      words := words + [v];
    }

    method WriteControl(v: bv32)
      requires Valid()
      modifies this
      ensures Valid() && words == if v & 1 != 0 then [] else old(words)
    {
      if v & 1 != 0 { dataRegister, words := INIT, []; }
    }
  }

  // The register after a reset and one word of zeros: the unit starts from all ones.
  lemma KnownAnswer()
    ensures Register(INIT, [0]) == 0xC704_DD7B
  {
    assert Steps(0xFFFF_FFFF, 1) == 0xFB3E_E249 && Steps(0xFFFF_FFFF, 2) == 0xF2BC_D925;
    assert Steps(0xFFFF_FFFF, 3) == 0xE1B8_AFFD && Steps(0xFFFF_FFFF, 4) == 0xC7B0_424D;
    assert Steps(0xFFFF_FFFF, 5) == 0x8BA1_992D && Steps(0xFFFF_FFFF, 6) == 0x1382_2FED;
    assert Steps(0xFFFF_FFFF, 7) == 0x2704_5FDA && Steps(0xFFFF_FFFF, 8) == 0x4E08_BFB4;
    assert Steps(0xFFFF_FFFF, 9) == 0x9C11_7F68 && Steps(0xFFFF_FFFF, 10) == 0x3CE3_E367;
    assert Steps(0xFFFF_FFFF, 11) == 0x79C7_C6CE && Steps(0xFFFF_FFFF, 12) == 0xF38F_8D9C;
    assert Steps(0xFFFF_FFFF, 13) == 0xE3DE_068F && Steps(0xFFFF_FFFF, 14) == 0xC37D_10A9;
    assert Steps(0xFFFF_FFFF, 15) == 0x823B_3CE5 && Steps(0xFFFF_FFFF, 16) == 0x00B7_647D;
    assert Steps(0xFFFF_FFFF, 17) == 0x016E_C8FA && Steps(0xFFFF_FFFF, 18) == 0x02DD_91F4;
    assert Steps(0xFFFF_FFFF, 19) == 0x05BB_23E8 && Steps(0xFFFF_FFFF, 20) == 0x0B76_47D0;
    assert Steps(0xFFFF_FFFF, 21) == 0x16EC_8FA0 && Steps(0xFFFF_FFFF, 22) == 0x2DD9_1F40;
    assert Steps(0xFFFF_FFFF, 23) == 0x5BB2_3E80 && Steps(0xFFFF_FFFF, 24) == 0xB764_7D00;
    assert Steps(0xFFFF_FFFF, 25) == 0x6A09_E7B7 && Steps(0xFFFF_FFFF, 26) == 0xD413_CF6E;
    assert Steps(0xFFFF_FFFF, 27) == 0xACE6_836B && Steps(0xFFFF_FFFF, 28) == 0x5D0C_1B61;
    assert Steps(0xFFFF_FFFF, 29) == 0xBA18_36C2 && Steps(0xFFFF_FFFF, 30) == 0x70F1_7033;
    assert Steps(0xFFFF_FFFF, 31) == 0xE1E2_E066 && Steps(0xFFFF_FFFF, 32) == 0xC704_DD7B;
    assert [0 as bv32][..0] == [] && INIT ^ 0 == 0xFFFF_FFFF;
  }

  // ----- Words as bit strings ----------------------------------------------------------

  // The i-th bit from the top.
  function Mask(i: nat): bv32 {
    if i == 0 then 0x8000_0000 else Mask(i - 1) >> 1
  }

  predicate Bit(c: bv32, m: bv32) { c & m != 0 }

  predicate AtMostOneBit(m: bv32) { m & (m - 1) == 0 }

  function ToBits(c: bv32): (r: Bits)
    ensures |r| == 32
  {
    seq(32, i requires 0 <= i < 32 => Bit(c, Mask(i)))
  }

  lemma MaskTable()
    ensures Mask(0) == 0x80000000 && Mask(1) == 0x40000000 && Mask(2) == 0x20000000 && Mask(3) == 0x10000000
    ensures Mask(4) == 0x8000000 && Mask(5) == 0x4000000 && Mask(6) == 0x2000000 && Mask(7) == 0x1000000
    ensures Mask(8) == 0x800000 && Mask(9) == 0x400000 && Mask(10) == 0x200000 && Mask(11) == 0x100000
    ensures Mask(12) == 0x80000 && Mask(13) == 0x40000 && Mask(14) == 0x20000 && Mask(15) == 0x10000
    ensures Mask(16) == 0x8000 && Mask(17) == 0x4000 && Mask(18) == 0x2000 && Mask(19) == 0x1000
    ensures Mask(20) == 0x800 && Mask(21) == 0x400 && Mask(22) == 0x200 && Mask(23) == 0x100
    ensures Mask(24) == 0x80 && Mask(25) == 0x40 && Mask(26) == 0x20 && Mask(27) == 0x10
    ensures Mask(28) == 0x8 && Mask(29) == 0x4 && Mask(30) == 0x2 && Mask(31) == 0x1
  {
  }

  lemma {:induction false} Masks(i: nat)
    ensures AtMostOneBit(Mask(i))
  {
    if i > 0 {
      Masks(i - 1);
      HalfMask(Mask(i - 1));
    }
  }

  lemma HalfMask(m: bv32)
    ensures AtMostOneBit(m) ==> AtMostOneBit(m >> 1)
  {
  }

  lemma BitXor(a: bv32, b: bv32, m: bv32)
    requires AtMostOneBit(m)
    ensures Bit(a ^ b, m) == (Bit(a, m) != Bit(b, m))
  {
  }

  lemma BitShift(a: bv32, m: bv32)
    ensures Bit(a << 1, m) == Bit(a, m >> 1)
  {
  }

  lemma ShiftedLow(a: bv32)
    ensures !Bit(a << 1, 1)
  {
  }

  lemma XorToBits(a: bv32, b: bv32)
    ensures ToBits(a ^ b) == Xor(ToBits(a), ToBits(b))
  {
    forall i | 0 <= i < 32 ensures ToBits(a ^ b)[i] == Xor(ToBits(a), ToBits(b))[i] {
      Masks(i);
      BitXor(a, b, Mask(i));
    }
  }

  lemma ShiftToBits(a: bv32)
    ensures ToBits(a << 1) == ToBits(a)[1..] + [false]
  {
    forall i | 0 <= i < 32 ensures ToBits(a << 1)[i] == (ToBits(a)[1..] + [false])[i] {
      if i < 31 { ShiftedBit(a, i); } else { LastShiftedBit(a); }
    }
  }

  lemma ShiftedBit(a: bv32, i: nat)
    ensures Bit(a << 1, Mask(i)) == Bit(a, Mask(i + 1))
  {
    BitShift(a, Mask(i));
  }

  lemma LastShiftedBit(a: bv32)
    ensures !Bit(a << 1, Mask(31))
  {
    MaskTable();
    ShiftedLow(a);
  }

  lemma PolyToBits()
    ensures ToBits(POLY) == GENERATOR[1..]
  {
    forall i | 0 <= i < 32 ensures ToBits(POLY)[i] == GENERATOR[1..][i] {
      if i < 16 { PolyUpperBit(i); } else { PolyLowerBit(i); }
    }
  }

  lemma PolyUpperBit(i: nat)
    requires i < 16
    ensures Bit(POLY, Mask(i)) == GENERATOR[i + 1]
  {
    MaskTable();
  }

  lemma PolyLowerBit(i: nat)
    requires 16 <= i < 32
    ensures Bit(POLY, Mask(i)) == GENERATOR[i + 1]
  {
    MaskTable();
  }

  // No two words have the same bits.
  lemma ToBitsInjective(a: bv32, b: bv32)
    requires ToBits(a) == ToBits(b)
    ensures a == b
  {
    var s, t := ToBits(a), ToBits(b);
    assert forall i :: 0 <= i < 32 ==> s[i] == t[i] && s[i] == Bit(a, Mask(i)) && t[i] == Bit(b, Mask(i));
    SameWord(a, b);
  }

  lemma SameWord(a: bv32, b: bv32)
    requires forall i {:trigger Mask(i)} :: 0 <= i < 32 ==> Bit(a, Mask(i)) == Bit(b, Mask(i))
    ensures a == b
  {
    MaskTable();
  }

  // ----- The register is a remainder ---------------------------------------------------

  lemma StepToBits(c: bv32)
    ensures ToBits(Step(c)) == NextRemainder(ToBits(c), false)
  {
    var r := ToBits(c);
    assert r[0] == Top(c) by { assert r[0] == Bit(c, Mask(0)); }
    ShiftToBits(c);
    if Top(c) {
      XorToBits(c << 1, POLY);
      PolyToBits();
    } else {
      XorZeros(ToBits(c << 1));
    }
  }

  lemma XorZeros(r: Bits)
    requires |r| == 32
    ensures Xor(r, Multiple(false)[1..]) == r
  {
  }

  lemma {:induction false} StepsToBits(c: bv32, n: nat)
    ensures ToBits(Steps(c, n)) == ZerosFed(ToBits(c), n)
  {
    if n > 0 {
      StepsToBits(c, n - 1);
      StepToBits(Steps(c, n - 1));
    }
  }

  // The words as one bit string, the initial value added to the first.
  function Message(init: bv32, words: seq<bv32>): (m: Bits)
    requires words != []
    ensures |m| >= 32
  {
    if |words| == 1 then ToBits(init ^ words[0])
    else Message(init, words[..|words| - 1]) + ToBits(words[|words| - 1])
  }

  // The data register is the remainder of the initialised message, followed by 32 zeros,
  // divided by the generator; and it is the only value that is.
  lemma {:induction false} RegisterIsRemainder(init: bv32, words: seq<bv32>)
    requires words != []
    ensures Remainder(Message(init, words) + Zeros(32), ToBits(Register(init, words)))
  {
    if |words| == 1 {
      FirstWord(init, words[0]);
      assert words == [words[0]];
    } else {
      var front, last := words[..|words| - 1], words[|words| - 1];
      RegisterIsRemainder(init, front);
      LaterWord(init, front, last);
      assert words == front + [last];
    }
  }

  lemma FirstWord(init: bv32, w: bv32)
    ensures Remainder(Message(init, [w]) + Zeros(32), ToBits(Register(init, [w])))
  {
    SmallRemainder(ToBits(init ^ w));
    WordFed(ToBits(init ^ w), init, w);
    RegisterLast(init, [], w);
    assert [] + [w] == [w];
  }

  lemma LaterWord(init: bv32, front: seq<bv32>, w: bv32)
    requires front != [] && Remainder(Message(init, front) + Zeros(32), ToBits(Register(init, front)))
    ensures Remainder(Message(init, front + [w]) + Zeros(32), ToBits(Register(init, front + [w])))
  {
    var c := Register(init, front);
    WordAdded(Message(init, front), c, w);
    WordFed(Message(init, front) + ToBits(w), c, w);
    RegisterLast(init, front, w);
    assert (front + [w])[..|front|] == front;
  }

  lemma WordAdded(m: Bits, c: bv32, w: bv32)
    requires Remainder(m + Zeros(32), ToBits(c))
    ensures Remainder(m + ToBits(w), ToBits(c ^ w))
  {
    AddLow(m, ToBits(c), ToBits(w));
    XorToBits(c, w);
  }

  lemma WordFed(m: Bits, c: bv32, w: bv32)
    requires Remainder(m, ToBits(c ^ w))
    ensures Remainder(m + Zeros(32), ToBits(Update(c, w)))
  {
    AppendZeros(m, ToBits(c ^ w), 32);
    StepsToBits(c ^ w, 32);
  }

  lemma OnlyRemainder(init: bv32, words: seq<bv32>, v: bv32)
    requires words != []
    ensures Remainder(Message(init, words) + Zeros(32), ToBits(v)) <==> v == Register(init, words)
  {
    RegisterIsRemainder(init, words);
    if Remainder(Message(init, words) + Zeros(32), ToBits(v)) {
      RemainderUnique(Message(init, words) + Zeros(32), ToBits(v), ToBits(Register(init, words)));
      ToBitsInjective(v, Register(init, words));
    }
  }

  // ----- Linearity ---------------------------------------------------------------------

  lemma TopXor(a: bv32, b: bv32)
    ensures Top(a ^ b) == (Top(a) != Top(b))
  {
  }

  lemma StepXorNone(a: bv32, b: bv32)
    requires !Top(a) && !Top(b) && !Top(a ^ b)
    ensures Step(a ^ b) == Step(a) ^ Step(b)
  {
  }

  lemma StepXorFirst(a: bv32, b: bv32)
    requires Top(a) && !Top(b) && Top(a ^ b)
    ensures Step(a ^ b) == Step(a) ^ Step(b)
  {
  }

  lemma StepXorSecond(a: bv32, b: bv32)
    requires !Top(a) && Top(b) && Top(a ^ b)
    ensures Step(a ^ b) == Step(a) ^ Step(b)
  {
  }

  lemma StepXorBoth(a: bv32, b: bv32)
    requires Top(a) && Top(b) && !Top(a ^ b)
    ensures Step(a ^ b) == Step(a) ^ Step(b)
  {
  }

  lemma StepXor(a: bv32, b: bv32)
    ensures Step(a ^ b) == Step(a) ^ Step(b)
  {
    TopXor(a, b);
    if Top(a) {
      if Top(b) { StepXorBoth(a, b); } else { StepXorFirst(a, b); }
    } else {
      if Top(b) { StepXorSecond(a, b); } else { StepXorNone(a, b); }
    }
  }

  // The update is linear.
  lemma {:induction false} StepsXor(a: bv32, b: bv32, n: nat)
    ensures Steps(a ^ b, n) == Steps(a, n) ^ Steps(b, n)
  {
    if n > 0 {
      StepsXor(a, b, n - 1);
      StepXor(Steps(a, n - 1), Steps(b, n - 1));
    }
  }

  lemma StepsXorOf(x: bv32, a: bv32, b: bv32, n: nat)
    requires x == a ^ b
    ensures Steps(x, n) == Steps(a, n) ^ Steps(b, n)
  {
    StepsXor(a, b, n);
  }

  lemma Exchange(c: bv32, d: bv32, v: bv32, w: bv32)
    ensures (c ^ d) ^ (v ^ w) == (c ^ v) ^ (d ^ w)
  {
  }

  lemma StepsExchange(c: bv32, d: bv32, v: bv32, w: bv32, n: nat)
    ensures Steps((c ^ d) ^ (v ^ w), n) == Steps(c ^ v, n) ^ Steps(d ^ w, n)
  {
    Exchange(c, d, v, w);
    StepsXorOf((c ^ d) ^ (v ^ w), c ^ v, d ^ w, n);
  }

  // So the effect of an error pattern on the register does not depend on the data.
  lemma UpdateXor(c: bv32, d: bv32, v: bv32, w: bv32)
    ensures Update(c ^ d, v ^ w) == Update(c, v) ^ Update(d, w)
  {
    StepsExchange(c, d, v, w, 32);
  }

  // ----- Bijectivity -------------------------------------------------------------------

  function Unstep(c: bv32): bv32 {
    if c & 1 != 0 then ((c ^ POLY) >> 1) | 0x8000_0000 else c >> 1
  }

  function Unsteps(c: bv32, n: nat): bv32
    decreases n
  {
    if n == 0 then c else Unsteps(Unstep(c), n - 1)
  }

  lemma UnstepTop(c: bv32)
    requires Top(c)
    ensures Unstep(Step(c)) == c
  {
  }

  lemma UnstepLow(c: bv32)
    requires !Top(c)
    ensures Unstep(Step(c)) == c
  {
  }

  lemma {:induction false} UnstepsSteps(c: bv32, n: nat)
    ensures Unsteps(Steps(c, n), n) == c
  {
    if n > 0 {
      var d := Steps(c, n - 1);
      if Top(d) { UnstepTop(d); } else { UnstepLow(d); }
      UnstepsSteps(c, n - 1);
    }
  }

  lemma StepUnstep(c: bv32)
    ensures Step(Unstep(c)) == c
  {
  }

  lemma {:induction false} StepsUnsteps(c: bv32, n: nat)
    ensures Steps(Unsteps(c, n), n) == c
    decreases n
  {
    if n > 0 {
      StepsUnsteps(Unstep(c), n - 1);
      StepUnstep(c);
    }
  }

  // From any register value every other can be reached by one word, and by only one.
  lemma WordBijective(c: bv32, y: bv32)
    ensures Update(c, c ^ Unsteps(y, 32)) == y
    ensures forall w :: Update(c, w) == y ==> w == c ^ Unsteps(y, 32)
  {
    var v := c ^ Unsteps(y, 32);
    SelfXor(c, Unsteps(y, 32));
    StepsUnsteps(y, 32);
    forall w | Update(c, w) == y ensures w == v {
      WordInjective(c, v, w);
    }
  }

  lemma SelfXor(c: bv32, x: bv32)
    ensures c ^ (c ^ x) == x
  {
  }

  // From one register value, different words lead to different values; and from different
  // values, the same word does.
  lemma WordInjective(c: bv32, v: bv32, w: bv32)
    ensures Update(c, v) == Update(c, w) ==> v == w
  {
    UnstepsSteps(c ^ v, 32);
    UnstepsSteps(c ^ w, 32);
    XorCancels(c, v, w);
  }

  lemma StartInjective(a: bv32, b: bv32, w: bv32)
    ensures Update(a, w) == Update(b, w) ==> a == b
  {
    UnstepsSteps(a ^ w, 32);
    UnstepsSteps(b ^ w, 32);
    XorCancels(w, a, b);
  }

  lemma XorCancels(c: bv32, v: bv32, w: bv32)
    ensures c ^ v == c ^ w ==> v == w
    ensures v ^ c == w ^ c ==> v == w
  {
  }

  // Two sequences that differ in exactly one word always leave different registers.
  lemma {:induction false} OneWordDetected(init: bv32, a: seq<bv32>, b: seq<bv32>, k: nat)
    requires |a| == |b| && k < |a| && a[k] != b[k]
    requires forall i :: 0 <= i < |a| && i != k ==> a[i] == b[i]
    ensures Register(init, a) != Register(init, b)
  {
    var n := |a| - 1;
    assert a == a[..n] + [a[n]] && b == b[..n] + [b[n]];
    RegisterLast(init, a[..n], a[n]);
    RegisterLast(init, b[..n], b[n]);
    if k == n {
      assert a[..n] == b[..n];
      WordInjective(Register(init, a[..n]), a[n], b[n]);
    } else {
      OneWordDetected(init, a[..n], b[..n], k);
      StartInjective(Register(init, a[..n]), Register(init, b[..n]), a[n]);
    }
  }
}
