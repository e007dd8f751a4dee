// The SRAM of the guest as the bus masters see it: bytes at CH32_SRAM_BASE, and behind
// them a gap that reads as zero and ignores writes.
module GuestMemory {
  import opened Basics

  type Ram = seq<byte>

  const SRAM_BASE: nat := 0x2000_0000

  // ch32_eth_span_in_main_sram
  predicate SpanInSram(ram: Ram, p: nat, len: nat) {
    len != 0 && SRAM_BASE <= p && p - SRAM_BASE <= |ram| && len <= |ram| - (p - SRAM_BASE)
  }

  // ch32_eth_ptr_in_main_sram
  predicate PtrInSram(ram: Ram, p: nat) {
    SpanInSram(ram, p, 1)
  }

  predicate Mapped(ram: Ram, a: nat) {
    SRAM_BASE <= a < SRAM_BASE + |ram|
  }

  function At(ram: Ram, a: nat): byte {
    if Mapped(ram, a) then ram[a - SRAM_BASE] else 0
  }

  function Poke(ram: Ram, a: nat, b: byte): (r: Ram)
    ensures |r| == |ram|
  {
    if Mapped(ram, a) then ram[a - SRAM_BASE := b] else ram
  }

  function ReadBytes(ram: Ram, a: nat, len: nat): seq<byte> {
    seq<byte>(len, i requires 0 <= i < len => At(ram, a + i))
  }

  function WriteBytes(ram: Ram, a: nat, data: seq<byte>): (r: Ram)
    ensures |r| == |ram|
  {
    if data == [] then ram
    else Poke(WriteBytes(ram, a, data[..|data| - 1]), a + |data| - 1, data[|data| - 1])
  }

  lemma {:induction false} WrittenBytes(ram: Ram, a: nat, data: seq<byte>)
    ensures forall x: nat :: At(WriteBytes(ram, a, data), x) ==
              if a <= x < a + |data| && Mapped(ram, x) then data[x - a] else At(ram, x)
  {
    if data != [] { WrittenBytes(ram, a, data[..|data| - 1]); }
  }

  // Memories are equal when every address reads the same.
  lemma SameBytes(r: Ram, s: Ram)
    requires |r| == |s| && forall x: nat :: At(r, x) == At(s, x)
    ensures r == s
  {
    forall i | 0 <= i < |r| ensures r[i] == s[i] {
      assert At(r, SRAM_BASE + i) == At(s, SRAM_BASE + i);
    }
  }

  // ----- Little-endian values ----------------------------------------------------------

  function LittleEndian(bs: seq<byte>): nat {
    if bs == [] then 0 else bs[0] + 256 * LittleEndian(bs[1..])
  }

  function ToBytes(v: nat, k: nat): (bs: seq<byte>)
    ensures |bs| == k
  {
    if k == 0 then [] else [v % 256] + ToBytes(v / 256, k - 1)
  }

  function Word(ram: Ram, a: nat): nat {
    LittleEndian(ReadBytes(ram, a, 4))
  }

  function WriteWord(ram: Ram, a: nat, w: nat): Ram {
    WriteBytes(ram, a, ToBytes(w, 4))
  }

  lemma {:induction false} BytesRoundTrip(bs: seq<byte>)
    ensures ToBytes(LittleEndian(bs), |bs|) == bs
  {
    if bs != [] {
      BytesRoundTrip(bs[1..]);
      assert LittleEndian(bs) % 256 == bs[0] && LittleEndian(bs) / 256 == LittleEndian(bs[1..]);
      assert bs == [bs[0]] + bs[1..];
    }
  }

  lemma FourBytes(b0: byte, b1: byte, b2: byte, b3: byte)
    ensures LittleEndian([b0, b1, b2, b3]) == b0 + 0x100 * b1 + 0x1_0000 * b2 + 0x100_0000 * b3
  {
    var bs := [b0, b1, b2, b3];
    assert bs[1..] == [b1, b2, b3] && [b1, b2, b3][1..] == [b2, b3] && [b2, b3][1..] == [b3];
    assert LittleEndian([b3]) == b3 + 256 * LittleEndian([]);
    assert LittleEndian([b2, b3]) == b2 + 256 * LittleEndian([b3]);
    assert LittleEndian([b1, b2, b3]) == b1 + 256 * LittleEndian([b2, b3]);
    assert LittleEndian(bs) == b0 + 256 * LittleEndian([b1, b2, b3]);
  }

  lemma WordRoundTrip(w: nat)
    requires w < 0x1_0000_0000
    ensures LittleEndian(ToBytes(w, 4)) == w
  {
    var a, b, c := w / 256, w / 256 / 256, w / 256 / 256 / 256;
    assert ToBytes(c, 1) == [c % 256] + ToBytes(c / 256, 0) == [c];
    assert ToBytes(b, 2) == [b % 256] + ToBytes(c, 1) == [b % 256, c];
    assert ToBytes(a, 3) == [a % 256] + ToBytes(b, 2) == [a % 256, b % 256, c];
    assert ToBytes(w, 4) == [w % 256] + ToBytes(a, 3) == [w % 256, a % 256, b % 256, c];
    FourBytes(w % 256, a % 256, b % 256, c);
  }

  // A word as its four bytes.
  lemma WordAt(ram: Ram, a: nat)
    ensures ReadBytes(ram, a, 4) == [At(ram, a), At(ram, a + 1), At(ram, a + 2), At(ram, a + 3)]
    ensures Word(ram, a) ==
            At(ram, a) + 0x100 * At(ram, a + 1) + 0x1_0000 * At(ram, a + 2) + 0x100_0000 * At(ram, a + 3)
  {
    FourBytes(At(ram, a), At(ram, a + 1), At(ram, a + 2), At(ram, a + 3));
    assert ReadBytes(ram, a, 4) == [At(ram, a), At(ram, a + 1), At(ram, a + 2), At(ram, a + 3)];
  }
}
