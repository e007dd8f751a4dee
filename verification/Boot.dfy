// The reset vector: decoding a RISC-V jump, and the repair of one known bad first word.
module Boot {
  import opened Arithmetic
  import opened Basics
  import opened GuestMemory

  const BAD_JAL: nat := 0x2020_006F
  const FIXED_JAL: nat := 0x2020_106F
  const WORDS: nat := 0x1_0000_0000

  // ----- JAL (section 2.5 of the RISC-V Unprivileged ISA, 20191213) --------------------

  // The 21-bit immediate as it lies scattered in the instruction.
  function Immediate(inst: nat): nat {
    inst / 0x8000_0000 % 2 * 0x10_0000 + inst / 0x1000 % 256 * 0x1000 +
    inst / 0x10_0000 % 2 * 0x800 + inst / 0x20_0000 % 1024 * 2
  }

  // Shifted up and down again in a signed word: bit 20 is the sign.
  function SignExtended(imm: nat): int {
    if imm >= 0x10_0000 then imm - 0x20_0000 else imm
  }

  // ch32_decode_jal_target
  function JalTarget(pc: nat, inst: nat): (t: nat)
    ensures t < WORDS
  {
    (pc + SignExtended(Immediate(inst))) % WORDS
  }

  predicate Offset(off: int) { -0x10_0000 <= off < 0x10_0000 && off % 2 == 0 }

  // imm[20|10:1|11|19:12] rd 1101111
  function EncodeJal(rd: nat, off: int): nat
    requires rd < 32 && Offset(off)
  {
    Scattered(if off < 0 then off + 0x20_0000 else off, rd * 0x80 + 0x6F)
  }

  function Scattered(u: nat, low: nat): nat {
    u / 0x10_0000 * 0x8000_0000 + u / 2 % 1024 * 0x20_0000 + u / 0x800 % 2 * 0x10_0000 +
    u / 0x1000 % 256 * 0x1000 + low
  }

  // A word is determined by its fields, and they by the word.
  lemma Fields(a: nat, b: nat, c: nat, d: nat, low: nat)
    requires b < 1024 && c < 2 && d < 256 && low < 0x1000
    ensures var w := a * 0x8000_0000 + b * 0x20_0000 + c * 0x10_0000 + d * 0x1000 + low;
            && w / 0x8000_0000 == a && w / 0x20_0000 % 1024 == b && w / 0x10_0000 % 2 == c
            && w / 0x1000 % 256 == d && w % 0x1000 == low
  {
    var w := a * 0x8000_0000 + b * 0x20_0000 + c * 0x10_0000 + d * 0x1000 + low;
    DivisionIs(w, 0x8000_0000, a, b * 0x20_0000 + c * 0x10_0000 + d * 0x1000 + low);
    DivisionIs(w, 0x20_0000, a * 1024 + b, c * 0x10_0000 + d * 0x1000 + low);
    DivisionIs(w, 0x10_0000, (a * 1024 + b) * 2 + c, d * 0x1000 + low);
    DivisionIs(w, 0x1000, ((a * 1024 + b) * 2 + c) * 256 + d, low);
    DivisionIs(a * 1024 + b, 1024, a, b);
    DivisionIs((a * 1024 + b) * 2 + c, 2, a * 1024 + b, c);
    DivisionIs(((a * 1024 + b) * 2 + c) * 256 + d, 256, (a * 1024 + b) * 2 + c, d);
  }

  // An even 21-bit number from its fields.
  lemma Pieces(u: nat)
    requires u < 0x20_0000 && u % 2 == 0
    ensures u / 0x10_0000 < 2
    ensures u == u / 0x10_0000 * 0x10_0000 + u / 0x1000 % 256 * 0x1000 + u / 0x800 % 2 * 0x800 + u / 2 % 1024 * 2
  {
    var h := u / 2;
    var b, m := h % 1024, h / 1024;
    var c, n := m % 2, m / 2;
    DivisionIs(u, 0x800, m, b * 2);
    DivisionIs(u, 0x1000, n, c * 0x800 + b * 2);
    DivisionIs(u, 0x10_0000, n / 256, n % 256 * 0x1000 + c * 0x800 + b * 2);
  }

  // Decoding an encoded jump gives back its target, for every place, link register and
  // offset.
  lemma JalRoundTrip(pc: nat, rd: nat, off: int)
    requires rd < 32 && Offset(off)
    ensures EncodeJal(rd, off) < WORDS
    ensures JalTarget(pc, EncodeJal(rd, off)) == (pc + off) % WORDS
  {
    EncodedImmediate(rd, off);
  }

  lemma EncodedImmediate(rd: nat, off: int)
    requires rd < 32 && Offset(off)
    ensures EncodeJal(rd, off) < WORDS
    ensures SignExtended(Immediate(EncodeJal(rd, off))) == off
  {
    ScatteredImmediate(if off < 0 then off + 0x20_0000 else off, rd * 0x80 + 0x6F);
  }

  lemma ScatteredImmediate(u: nat, low: nat)
    requires u < 0x20_0000 && u % 2 == 0 && low < 0x1000
    ensures Scattered(u, low) < WORDS && Immediate(Scattered(u, low)) == u
  {
    Pieces(u);
    ImmediateOf(u / 0x10_0000, u / 2 % 1024, u / 0x800 % 2, u / 0x1000 % 256, low);
  }

  lemma ImmediateOf(a: nat, b: nat, c: nat, d: nat, low: nat)
    requires a < 2 && b < 1024 && c < 2 && d < 256 && low < 0x1000
    ensures var w := a * 0x8000_0000 + b * 0x20_0000 + c * 0x10_0000 + d * 0x1000 + low;
            w < WORDS && Immediate(w) == a * 0x10_0000 + d * 0x1000 + c * 0x800 + b * 2
  {
    Fields(a, b, c, d, low);
  }

  // And every jump instruction is the encoding of what it decodes to.
  lemma JalDecoded(inst: nat)
    requires inst < WORDS && inst % 0x80 == 0x6F
    ensures Offset(SignExtended(Immediate(inst)))
    ensures EncodeJal(inst / 0x80 % 32, SignExtended(Immediate(inst))) == inst
  {
    var a, b, c, d := inst / 0x8000_0000, inst / 0x20_0000 % 1024, inst / 0x10_0000 % 2, inst / 0x1000 % 256;
    WordPieces(inst);
    ImmediatePieces(a, b, c, d);
  }

  lemma WordPieces(w: nat)
    requires w < WORDS && w % 0x80 == 0x6F
    ensures w / 0x8000_0000 < 2
    ensures w == w / 0x8000_0000 * 0x8000_0000 + w / 0x20_0000 % 1024 * 0x20_0000 + w / 0x10_0000 % 2 * 0x10_0000 +
                 w / 0x1000 % 256 * 0x1000 + w / 0x80 % 32 * 0x80 + 0x6F
  {
    var r := w / 0x80;
    var rd, k := r % 32, r / 32;
    var d, l := k % 256, k / 256;
    var c, m := l % 2, l / 2;
    DivisionIs(w, 0x1000, k, rd * 0x80 + 0x6F);
    DivisionIs(w, 0x10_0000, l, d * 0x1000 + rd * 0x80 + 0x6F);
    DivisionIs(w, 0x20_0000, m, c * 0x10_0000 + d * 0x1000 + rd * 0x80 + 0x6F);
    DivisionIs(w, 0x8000_0000, m / 1024, m % 1024 * 0x20_0000 + c * 0x10_0000 + d * 0x1000 + rd * 0x80 + 0x6F);
  }

  lemma ImmediatePieces(a: nat, b: nat, c: nat, d: nat)
    requires a < 2 && b < 1024 && c < 2 && d < 256
    ensures var u := a * 0x10_0000 + d * 0x1000 + c * 0x800 + b * 2;
            && u < 0x20_0000 && u % 2 == 0 && u / 0x10_0000 == a
            && u / 2 % 1024 == b && u / 0x800 % 2 == c && u / 0x1000 % 256 == d
  {
    var u := a * 0x10_0000 + d * 0x1000 + c * 0x800 + b * 2;
    DivisionIs(u, 2, (a * 256 + d) * 2048 + c * 1024 + b, 0);
    DivisionIs((a * 256 + d) * 2048 + c * 1024 + b, 1024, (a * 256 + d) * 2 + c, b);
    DivisionIs(u, 0x800, (a * 256 + d) * 2 + c, b * 2);
    DivisionIs((a * 256 + d) * 2 + c, 2, a * 256 + d, c);
    DivisionIs(u, 0x1000, a * 256 + d, c * 0x800 + b * 2);
    DivisionIs(a * 256 + d, 256, a, d);
  }

  // ----- The vector patch --------------------------------------------------------------

  function WordIn(flash: seq<byte>, off: nat): nat
    requires off + 4 <= |flash|
  {
    LittleEndian(flash[off..off + 4])
  }

  // ch32_flash_reset_entry_is_valid: the target holds an AUIPC to the global pointer.
  predicate EntryIsValid(flash: seq<byte>, target: nat) {
    target >= FLASH_BASE && target - FLASH_BASE + 4 <= |flash| &&
    var w := WordIn(flash, target - FLASH_BASE); w % 0x80 == 0x17 && w / 0x80 % 32 == 3
  }

  // What it accepts: a target whose word, inside flash, is "auipc gp" with any immediate.
  lemma EntryIsAuipc(flash: seq<byte>, target: nat)
    ensures EntryIsValid(flash, target) <==>
            && FLASH_BASE <= target && target + 4 <= FLASH_BASE + |flash|
            && Auipc(WordIn(flash, target - FLASH_BASE))
  {
    if FLASH_BASE <= target && target + 4 <= FLASH_BASE + |flash| {
      var w := WordIn(flash, target - FLASH_BASE);
      if EntryIsValid(flash, target) {
        AuipcFields(w, w / 0x80 / 32);
        assert IsAuipc(w, w / 0x80 / 32);
      } else if upper: nat :| IsAuipc(w, upper) {
        AuipcFields(w, upper);
      }
    }
  }

  ghost predicate Auipc(w: nat) {
    exists upper: nat :: IsAuipc(w, upper)
  }

  // imm[31:12] rd 0010111 with rd = 3
  predicate IsAuipc(w: nat, upper: nat) {
    w == 0x1000 * upper + 3 * 0x80 + 0x17
  }

  lemma AuipcFields(w: nat, upper: nat)
    ensures IsAuipc(w, upper) ==> w % 0x80 == 0x17 && w / 0x80 % 32 == 3
    ensures w % 0x80 == 0x17 && w / 0x80 % 32 == 3 ==> IsAuipc(w, w / 0x80 / 32)
  {
    if IsAuipc(w, upper) {
      DivisionIs(w, 0x80, 32 * upper + 3, 0x17);
      DivisionIs(32 * upper + 3, 32, upper, 3);
    }
  }

  predicate NeedsPatch(flash: seq<byte>) {
    |flash| >= 4 && WordIn(flash, 0) == BAD_JAL && !EntryIsValid(flash, JalTarget(FLASH_BASE, BAD_JAL))
  }

  function Patched(flash: seq<byte>): (r: seq<byte>)
    ensures |r| == |flash|
  {
    if NeedsPatch(flash) then ToBytes(FIXED_JAL, 4) + flash[4..] else flash
  }

  // ch32_flash_patch_vector_jal_if_needed
  method PatchVector(flash: array<byte>)
    modifies flash
    ensures flash[..] == Patched(old(flash[..]))
  {
    if flash.Length < 4 { return; }
    var w := LittleEndian(flash[..4]);
    assert flash[..4] == flash[..][0..4];
    if w != BAD_JAL { return; }
    if EntryIsValid(flash[..], JalTarget(FLASH_BASE, w)) { return; }
    var bs := ToBytes(FIXED_JAL, 4);
    ghost var rest := flash[4..];
    flash[0], flash[1], flash[2], flash[3] := bs[0], bs[1], bs[2], bs[3];
    assert flash[..4] == bs && flash[4..] == rest;
  }

  // The patch touches at most the first word, is the identity the second time, and leaves
  // no image that would need it.
  lemma PatchProperties(flash: seq<byte>)
    ensures forall i :: 4 <= i < |flash| ==> Patched(flash)[i] == flash[i]
    ensures !NeedsPatch(Patched(flash)) && Patched(Patched(flash)) == Patched(flash)
    ensures Patched(flash) != flash <==> NeedsPatch(flash)
  {
    if NeedsPatch(flash) {
      var r := Patched(flash);
      assert r[0..4] == ToBytes(FIXED_JAL, 4);
      WordRoundTrip(FIXED_JAL);
      assert WordIn(r, 0) == FIXED_JAL;
    }
  }

  // Where the two words jump to.
  lemma VectorTargets()
    ensures JalTarget(FLASH_BASE, BAD_JAL) == FLASH_BASE + 0x202
    ensures JalTarget(FLASH_BASE, FIXED_JAL) == FLASH_BASE + 0x1202
  {
    assert Immediate(BAD_JAL) == 0x202;
    assert Immediate(FIXED_JAL) == 0x1202;
  }
}
