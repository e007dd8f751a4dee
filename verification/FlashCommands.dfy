// Which flash command erases what, which one wins, and what each protection bit covers.
module FlashCommands {
  import opened Arithmetic
  import opened Basics
  import opened FlashModel

  // Bytes of one aligned unit.
  ghost predicate OnlyUnitErased(before: seq<byte>, after: seq<byte>, unit: nat, off: nat)
    requires unit > 0
  {
    && |after| == |before|
    && forall i :: 0 <= i < |before| ==> after[i] == if i / unit == off / unit then 0xFF else before[i]
  }

  lemma InUnit(i: nat, off: nat, unit: nat)
    requires unit > 0
    ensures off / unit * unit <= i < off / unit * unit + unit <==> i / unit == off / unit
  {
    var q := off / unit;
    assert i == i / unit * unit + i % unit;
    if q * unit <= i < q * unit + unit { DivisionIs(i, unit, q, i - q * unit); }
  }

  // No byte of the unit around an address is protected.
  ghost predicate UnitFree(s: Flash, unit: nat)
    requires unit > 0 && s.addr >= FLASH_BASE
  {
    forall i :: 0 <= i < |s.mem| && i / unit == (s.addr - FLASH_BASE) / unit ==> !Protected(s.wpr, i)
  }

  // The three commands that erase a unit: PER 4 KiB, PAGE_ER 256 bytes, BER32 32 KiB.
  function UnitOf(bit: nat): nat {
    if bit == 1 then 0x1000 else if bit == 17 then 0x100 else 0x8000
  }

  // A unit command on an unlocked controller erases exactly the aligned unit around the
  // address when no byte of it is protected, and otherwise nothing; with 32 KiB also a unit
  // that the end of flash cuts off.
  lemma UnitCommand(s: Flash, bit: nat)
    requires s.unlocked && (bit == 1 || bit == 17 || bit == 18)
    requires FLASH_BASE <= s.addr < FLASH_BASE + |s.mem|
    requires bit == 18 || (s.addr - FLASH_BASE) / UnitOf(bit) * UnitOf(bit) + UnitOf(bit) <= |s.mem|
    ensures var t := Step(s, Control({STRT, bit}));
            if UnitFree(s, UnitOf(bit)) then OnlyUnitErased(s.mem, t.mem, UnitOf(bit), s.addr - FLASH_BASE)
            else t.mem == s.mem
  {
    var unit, off := UnitOf(bit), s.addr - FLASH_BASE;
    var lo := off / unit * unit;
    var hi := if lo + unit <= |s.mem| then lo + unit else |s.mem|;
    assert RangeOf(s, CommandOf({STRT, bit})) == Range(lo, hi);
    forall i: nat | i < |s.mem| ensures lo <= i < hi <==> i / unit == off / unit { InUnit(i, off, unit); }
    assert UnitFree(s, unit) <==> Unprotected(s.wpr, lo, hi);
  }

  // A unit command at an address outside flash, or on a 4 KiB or 256-byte unit that the end of
  // flash cuts off, erases nothing.
  lemma OutsideErasesNothing(s: Flash, bit: nat)
    requires s.unlocked && (bit == 1 || bit == 17 || bit == 18)
    requires s.addr < FLASH_BASE || s.addr >= FLASH_BASE + |s.mem| ||
             (bit != 18 && (s.addr - FLASH_BASE) / UnitOf(bit) * UnitOf(bit) + UnitOf(bit) > |s.mem|)
    ensures Step(s, Control({STRT, bit})).mem == s.mem
  {
  }

  // A mass erase erases all of flash, unless any byte of it is protected.
  lemma MassCommand(s: Flash)
    requires s.unlocked
    ensures Step(s, Control({STRT, 2})).mem ==
            if forall i :: 0 <= i < |s.mem| ==> !Protected(s.wpr, i) then seq<byte>(|s.mem|, i => 0xFF) else s.mem
  {
    assert CommandOf({STRT, 2}) == Mass && RangeOf(s, Mass) == Range(0, |s.mem|);
  }

  // The option commands and a bare start erase nothing.
  lemma OtherCommands(s: Flash, bits: set<nat>)
    requires s.unlocked && (bits == {STRT, 5} || bits == {STRT, 4} || bits == {STRT})
    ensures Step(s, Control(bits)).mem == s.mem
  {
    assert RangeOf(s, CommandOf(bits)) == NoBlock;
  }

  // Mass erase, option erase, 32K, 4K, 256 bytes, option programming.
  const PRECEDENCE: seq<nat> := [2, 5, 18, 1, 17, 4]

  // Of several commands in one write the first of this list is done, as if it were alone, and
  // only its bit is cleared with the start bit; locking or no start does none of them.
  lemma FirstCommandWins(s: Flash, bits: set<nat>, i: nat)
    requires s.unlocked && LOCK !in bits && STRT in bits && i < |PRECEDENCE|
    requires PRECEDENCE[i] in bits && forall j :: 0 <= j < i ==> PRECEDENCE[j] !in bits
    ensures Step(s, Control(bits)).mem == Step(s, Control({STRT, PRECEDENCE[i]})).mem
    ensures Step(s, Control(bits)).ctlr == bits - {STRT, PRECEDENCE[i], PG_STRT}
  {
    assert forall j :: 0 <= j < i ==> PRECEDENCE[j] !in bits;
    assert i > 0 ==> PRECEDENCE[0] !in bits;
    assert i > 1 ==> PRECEDENCE[1] !in bits;
    assert i > 2 ==> PRECEDENCE[2] !in bits;
    assert i > 3 ==> PRECEDENCE[3] !in bits;
    assert i > 4 ==> PRECEDENCE[4] !in bits;
    assert CommandOf(bits) == CommandOf({STRT, PRECEDENCE[i]});
  }

  // Bit b of the protection register covers sector b, and bit 31 everything from sector 31 on.
  lemma ProtectionCovers(b: nat, i: nat)
    requires b < 32
    ensures Protected({b}, i) <==> 0x1000 * b <= i && (b == 31 || i < 0x1000 * b + 0x1000)
  {
  }

  // A byte is protected exactly when one of the set bits covers it.
  lemma ProtectedIff(wpr: set<nat>, i: nat)
    ensures Protected(wpr, i) <==> exists b :: b in wpr && b < 32 && Protected({b}, i)
  {
    if Protected(wpr, i) { assert Protected({SectorBit(i)}, i); }
  }

  // A page program start ends at once, with end-of-operation and its bit gone; writing a status
  // bit clears it if it is one of the five that can be cleared.
  lemma OtherWrites(s: Flash, bits: set<nat>)
    ensures 21 in bits ==> EOP in Step(s, Control(bits)).statr && 21 !in Step(s, Control(bits)).ctlr
    ensures Step(s, Status(bits)) == s.(statr := set b | b in s.statr && !(b in bits && b in {0, 1, 4, 5, 7}))
  {
    assert s.statr - bits * W1C == set b | b in s.statr && !(b in bits && b in {0, 1, 4, 5, 7});
  }

  // The two key sequences from a reset on: unlocked, and option writes enabled.
  lemma KeysOpen(s: Flash)
    ensures Step(Step(Step(s, Reset), Key(0x4567_0123)), Key(0xCDEF_89AB)).unlocked
    ensures 9 in Step(Step(Step(s, Reset), OptionKey(0x4567_0123)), OptionKey(0xCDEF_89AB)).ctlr
  {
  }

  // Unlocking clears both lock bits of CTLR and no other.
  lemma UnlockClears(s: Flash, b: nat)
    requires s.keyStep
    ensures b in Step(s, Key(0xCDEF_89AB)).ctlr <==> b in s.ctlr && b != 7 && b != 15
  {
  }

  // A reset locks, forgets keys, protection and status, and keeps the contents.
  lemma ResetLocks(s: Flash)
    ensures var t := Step(s, Reset);
            && !t.unlocked && !t.keyStep && !t.obKeyStep && t.ctlr == {7} && t.statr == {}
            && t.mem == s.mem && forall i :: 0 <= i < |s.mem| ==> !Protected(t.wpr, i)
  {
  }
}
