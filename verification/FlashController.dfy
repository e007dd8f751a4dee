// The flash controller as the machine runs it: erase routines over the flash memory.
module FlashController {
  import opened Basics
  import opened FlashModel

  class Controller {
    const flash: array<byte>
    var unlocked: bool
    var keyStep: bool
    var obKeyStep: bool
    var ctlr: set<nat>
    var statr: set<nat>
    var wpr: set<nat>
    var addr: nat

    constructor (size: nat)
      ensures flash.Length == size && fresh(flash)
      ensures State() == Step(State(), Reset)
    {
      flash := new byte[size](i => 0);
      unlocked, keyStep, obKeyStep, ctlr, statr, wpr, addr := false, false, false, {LOCK}, {}, {}, 0;
    }

    ghost function State(): Flash
      reads this, flash
    {
      Flash(flash[..], unlocked, keyStep, obKeyStep, ctlr, statr, wpr, addr)
    }

    // ch32_flash_sector_wp for an address inside flash
    predicate SectorWp(off: nat)
      reads this
    {
      var sec := off / SECTOR;
      if sec >= 31 then 31 in wpr else sec in wpr
    }

    // ch32_flash_op_complete
    method Complete(error: bool)
      modifies `statr
      ensures statr == Completed(old(statr), error)
    {
      statr := statr - {0, 1};
      if error { statr := statr + {WRPRTERR}; }
      statr := statr + {EOP};
    }

    method Fill(lo: nat, hi: nat)
      requires lo <= hi <= flash.Length
      modifies flash
      ensures flash[..] == Erased(old(flash[..]), lo, hi)
    {
      for i := lo to hi
        invariant forall j :: 0 <= j < flash.Length ==>
                    flash[j] == if lo <= j < i then 0xFF else old(flash[j])
      {
        flash[i] := 0xFF;
      }
    }

    // Is any sector of an aligned range protected?
    method AnySectorWp(lo: nat, hi: nat) returns (found: bool)
      requires lo % SECTOR == 0
      ensures found <==> !Unprotected(wpr, lo, hi)
    {
      found := false;
      var off := lo;
      while off < hi && !found
        invariant lo <= off && off % SECTOR == 0
        invariant if found then !Unprotected(wpr, lo, hi)
                  else Unprotected(wpr, lo, if off < hi then off else hi)
        decreases hi - off, !found
      {
        SameSector(off);
        if SectorWp(off) {
          assert Protected(wpr, off);
          found := true;
        } else {
          off := off + SECTOR;
        }
      }
    }

    // Erases a range unless some of it is protected.
    method EraseBlock(lo: nat, hi: nat)
      requires lo <= hi <= flash.Length && lo % SECTOR == 0
      modifies flash, `statr
      ensures State() == EraseRange(old(State()), Range(lo, hi))
    {
      var protected := AnySectorWp(lo, hi);
      if protected {
        Complete(true);
      } else {
        Fill(lo, hi);
        Complete(false);
      }
    }

    // ch32_flash_erase_4k and ch32_flash_erase_256: one block inside one sector.
    method EraseUnit(unit: nat)
      requires unit == SECTOR || unit == PAGE
      modifies flash, `statr
      ensures State() == EraseRange(old(State()), BlockAt(flash.Length, addr, unit, false))
    {
      if addr < FLASH_BASE || addr >= FLASH_BASE + flash.Length {
        Complete(false);
        return;
      }
      var off := (addr - FLASH_BASE) / unit * unit;
      if off + unit > flash.Length {
        Complete(false);
        return;
      }
      InOneSector((addr - FLASH_BASE) / unit, unit);
      OneSector(off, unit);
      if SectorWp(off) {
        assert Protected(wpr, off);
        Complete(true);
      } else {
        assert Unprotected(wpr, off, off + unit);
        Fill(off, off + unit);
        Complete(false);
      }
    }

    // ch32_flash_erase_32k
    method Erase32K()
      modifies flash, `statr
      ensures State() == EraseRange(old(State()), BlockAt(flash.Length, addr, BLOCK, true))
    {
      if addr < FLASH_BASE || addr >= FLASH_BASE + flash.Length {
        Complete(false);
        return;
      }
      var off := (addr - FLASH_BASE) / BLOCK * BLOCK;
      BlockAligned((addr - FLASH_BASE) / BLOCK);
      var chunk := BLOCK;
      if off + chunk > flash.Length { chunk := flash.Length - off; }
      EraseBlock(off, off + chunk);
    }

    // ch32_flash_ctl_write
    method WriteControl(bits: set<nat>)
      modifies flash, `unlocked, `ctlr, `statr
      ensures State() == ControlWrite(old(State()), bits)
    {
      var nw := bits;
      if LOCK in nw {
        unlocked := false;
        nw := nw - {OPTWRE};
      }
      if unlocked && STRT in nw {
        nw := Start(nw);
      }
      if PG_STRT in nw {
        nw := nw - {PG_STRT};
        Complete(false);
      }
      ctlr := nw;
    }

    // A start command.
    method Start(nw: set<nat>) returns (rest: set<nat>)
      modifies flash, `statr
      ensures State() == EraseRange(old(State()), RangeOf(old(State()), CommandOf(nw)))
      ensures rest == nw - BitsOf(CommandOf(nw))
    {
      if MER in nw {
        EraseBlock(0, flash.Length);
        rest := nw - {STRT, MER};
      } else if OPTER in nw {
        Complete(false);
        rest := nw - {STRT, OPTER};
      } else if BER32 in nw {
        Erase32K();
        rest := nw - {STRT, BER32};
      } else if PER in nw {
        EraseUnit(SECTOR);
        rest := nw - {STRT, PER};
      } else if PAGE_ER in nw {
        EraseUnit(PAGE);
        rest := nw - {STRT, PAGE_ER};
      } else if OPTPG in nw {
        Complete(false);
        rest := nw - {STRT, OPTPG};
      } else {
        rest := nw - {STRT};
        Complete(false);
      }
    }

    // ch32_flash_key_write
    method WriteKey(v: nat)
      modifies `unlocked, `keyStep, `ctlr
      ensures State() == KeyWrite(old(State()), v)
    {
      if v == KEY1 {
        keyStep := true;
        return;
      }
      if keyStep && v == KEY2 {
        unlocked := true;
        ctlr := ctlr - {LOCK, FLOCK};
        keyStep := false;
        return;
      }
      keyStep := false;
    }

    // ch32_flash_obkey_write: KEY2 right behind KEY1 sets OPTWRE, and nothing else changes it.
    method WriteOptionKey(v: nat)
      modifies `obKeyStep, `ctlr
      ensures State() == OptionKeyWrite(old(State()), v)
      ensures OPTWRE in ctlr <==> OPTWRE in old(ctlr) || (old(obKeyStep) && v == KEY2)
      ensures (obKeyStep <==> v == KEY1) && ctlr - {OPTWRE} == old(ctlr) - {OPTWRE}
    {
      if v == KEY1 {
        obKeyStep := true;
        return;
      }
      if obKeyStep && v == KEY2 {
        ctlr := ctlr + {OPTWRE};
        obKeyStep := false;
        return;
      }
      obKeyStep := false;
    }
  }

  // All bytes of a sector answer to the same protection bit.
  lemma SameSector(off: nat)
    requires off % SECTOR == 0
    ensures forall i :: off <= i < off + SECTOR ==> SectorBit(i) == SectorBit(off)
  {
  }

  lemma OneSector(off: nat, unit: nat)
    requires off % SECTOR + unit <= SECTOR
    ensures forall i :: off <= i < off + unit ==> SectorBit(i) == SectorBit(off)
  {
  }

  lemma BlockAligned(q: nat)
    ensures q * BLOCK % SECTOR == 0
  {
  }

  // An aligned page, or sector, lies inside one sector.
  lemma InOneSector(q: nat, unit: nat)
    requires unit == SECTOR || unit == PAGE
    ensures q * unit % SECTOR + unit <= SECTOR
  {
  }
}
