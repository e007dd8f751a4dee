// The flash controller: lock, key sequence and erase commands, as values.
//
// Control, status and protection registers are the sets of their bits that are 1.
module FlashModel {
  import opened Arithmetic
  import opened Basics

  const SECTOR: nat := 4096
  const BLOCK: nat := 0x8000
  const PAGE: nat := 256
  const KEY1: nat := 0x4567_0123
  const KEY2: nat := 0xCDEF_89AB

  // CTLR bits
  const PER: nat := 1
  const MER: nat := 2
  const OPTPG: nat := 4
  const OPTER: nat := 5
  const STRT: nat := 6
  const LOCK: nat := 7
  const OPTWRE: nat := 9
  const FLOCK: nat := 15
  const PAGE_ER: nat := 17
  const BER32: nat := 18
  const PG_STRT: nat := 21

  // STATR bits: busy, write busy, write protection error, end of operation, mode
  const WRPRTERR: nat := 4
  const EOP: nat := 5
  const W1C: set<nat> := {0, 1, WRPRTERR, EOP, 7}

  datatype Flash = Flash(
    mem: seq<byte>,
    unlocked: bool, keyStep: bool, obKeyStep: bool,
    ctlr: set<nat>, statr: set<nat>,
    wpr: set<nat>, addr: nat)

  // ----- Write protection --------------------------------------------------------------

  // WPR bit 31 stands for every sector from number 31 on.
  function SectorBit(off: nat): nat {
    if off / SECTOR >= 31 then 31 else off / SECTOR
  }

  predicate Protected(wpr: set<nat>, off: nat) {
    SectorBit(off) in wpr
  }

  // No byte of a range is protected.
  ghost predicate Unprotected(wpr: set<nat>, lo: nat, hi: nat) {
    forall i :: lo <= i < hi ==> !Protected(wpr, i)
  }

  // ----- Erasing -----------------------------------------------------------------------

  function Erased(mem: seq<byte>, lo: nat, hi: nat): (r: seq<byte>)
    ensures |r| == |mem|
  {
    seq<byte>(|mem|, i requires 0 <= i < |mem| => if lo <= i < hi then 0xFF else mem[i])
  }

  // How an operation ends: busy bits cleared, end of operation raised.
  function Completed(statr: set<nat>, error: bool): set<nat> {
    (statr - {0, 1}) + (if error then {WRPRTERR, EOP} else {EOP})
  }

  // The block of the given size around an address, cut off at the end of flash if clipped
  // is allowed; NoBlock if the address or the block is not in flash.
  datatype Range = NoBlock | Range(lo: nat, hi: nat)

  function BlockAt(size: nat, addr: nat, unit: nat, clipped: bool): Range
    requires unit > 0
  {
    if addr < FLASH_BASE || addr >= FLASH_BASE + size then NoBlock
    else
      var lo := (addr - FLASH_BASE) / unit * unit;
      if lo + unit <= size then Range(lo, lo + unit)
      else if clipped then Range(lo, size)
      else NoBlock
  }

  // Erase a whole block or nothing.
  ghost function EraseRange(s: Flash, r: Range): Flash {
    match r
    case NoBlock => s.(statr := Completed(s.statr, false))
    case Range(lo, hi) =>
      if Unprotected(s.wpr, lo, hi) then
        s.(mem := Erased(s.mem, lo, hi), statr := Completed(s.statr, false))
      else s.(statr := Completed(s.statr, true))
  }

  // ----- Commands ----------------------------------------------------------------------

  // In order of precedence.
  datatype Command = Mass | Options | Block32 | Sector4 | Page256 | OptionProgram | Nothing

  function CommandOf(bits: set<nat>): Command {
    if MER in bits then Mass
    else if OPTER in bits then Options
    else if BER32 in bits then Block32
    else if PER in bits then Sector4
    else if PAGE_ER in bits then Page256
    else if OPTPG in bits then OptionProgram
    else Nothing
  }

  function BitsOf(c: Command): set<nat> {
    match c
    case Mass => {STRT, MER}
    case Options => {STRT, OPTER}
    case Block32 => {STRT, BER32}
    case Sector4 => {STRT, PER}
    case Page256 => {STRT, PAGE_ER}
    case OptionProgram => {STRT, OPTPG}
    case Nothing => {STRT}
  }

  function RangeOf(s: Flash, c: Command): Range {
    match c
    case Mass => Range(0, |s.mem|)
    case Block32 => BlockAt(|s.mem|, s.addr, BLOCK, true)
    case Sector4 => BlockAt(|s.mem|, s.addr, SECTOR, false)
    case Page256 => BlockAt(|s.mem|, s.addr, PAGE, false)
    case _ => NoBlock
  }

  // ch32_flash_ctl_write
  ghost function ControlWrite(s: Flash, bits: set<nat>): Flash {
    var locking := LOCK in bits;
    var nw := if locking then bits - {OPTWRE} else bits;
    var u := s.(unlocked := s.unlocked && !locking);
    var started := u.unlocked && STRT in nw;
    var c := CommandOf(nw);
    var done := if started then EraseRange(u, RangeOf(u, c)) else u;
    var rest := if started then nw - BitsOf(c) else nw;
    if PG_STRT in rest then done.(statr := Completed(done.statr, false), ctlr := rest - {PG_STRT})
    else done.(ctlr := rest)
  }

  // ch32_flash_key_write
  function KeyWrite(s: Flash, v: nat): Flash {
    if s.keyStep && v == KEY2 then
      s.(unlocked := true, ctlr := s.ctlr - {LOCK, FLOCK}, keyStep := false)
    else s.(keyStep := v == KEY1)
  }

  // ch32_flash_obkey_write
  function OptionKeyWrite(s: Flash, v: nat): Flash {
    if s.obKeyStep && v == KEY2 then s.(ctlr := s.ctlr + {OPTWRE}, obKeyStep := false)
    else s.(obKeyStep := v == KEY1)
  }

  // ----- Steps -------------------------------------------------------------------------

  datatype Event =
    | Key(value: nat)               // 0x04 and 0x24
    | OptionKey(value: nat)         // 0x08
    | Status(bits: set<nat>)        // 0x0C
    | Control(bits: set<nat>)       // 0x10
    | Address(value: nat)           // 0x14
    | Protection(bits: set<nat>)    // 0x20
    | Other                         // registers without effect
    | Reset

  ghost function Step(s: Flash, e: Event): Flash {
    match e
    case Key(v) => KeyWrite(s, v)
    case OptionKey(v) => OptionKeyWrite(s, v)
    case Status(bits) => s.(statr := s.statr - bits * W1C)
    case Control(bits) => ControlWrite(s, bits)
    case Address(v) => s.(addr := v)
    case Protection(bits) => s.(wpr := bits)
    case Other => s
    case Reset => Flash(s.mem, false, false, false, {LOCK}, {}, {}, 0)
  }

  // ----- What a step may do to the contents --------------------------------------------

  // The step erases lo..hi: a start command on an unlocked controller, for exactly the
  // block of that command, none of it protected.
  ghost predicate Erases(s: Flash, e: Event, lo: nat, hi: nat) {
    && e.Control? && s.unlocked && LOCK !in e.bits && STRT in e.bits
    && RangeOf(s, CommandOf(e.bits)) == Range(lo, hi)
    && Unprotected(s.wpr, lo, hi)
  }

  lemma StepErases(s: Flash, e: Event)
    ensures |Step(s, e).mem| == |s.mem|
    ensures forall lo: nat, hi: nat :: Erases(s, e, lo, hi) ==> Step(s, e).mem == Erased(s.mem, lo, hi)
    ensures (forall lo: nat, hi: nat :: !Erases(s, e, lo, hi)) ==> Step(s, e).mem == s.mem
  {
    if e.Control? && s.unlocked && LOCK !in e.bits && STRT in e.bits {
      var r := RangeOf(s, CommandOf(e.bits));
      if r.Range? && Unprotected(s.wpr, r.lo, r.hi) { assert Erases(s, e, r.lo, r.hi); }
    }
  }

  // A start command on an unlocked controller always ends with end-of-operation and its
  // start bit gone, and reports a protection error exactly when its range was protected.
  lemma StartIsReported(s: Flash, bits: set<nat>)
    requires s.unlocked && LOCK !in bits && STRT in bits
    ensures var t, r := Step(s, Control(bits)), RangeOf(s, CommandOf(bits));
            && EOP in t.statr && 0 !in t.statr && 1 !in t.statr && STRT !in t.ctlr
            && (WRPRTERR in t.statr <==>
                  WRPRTERR in s.statr || (r.Range? && !Unprotected(s.wpr, r.lo, r.hi)))
  {
  }

  // A block is aligned, contains the address, and has its full size, except that a 32K
  // block may be cut off by the end of flash.
  lemma BlockIsWhole(size: nat, addr: nat, unit: nat, clipped: bool)
    requires unit > 0
    ensures var r := BlockAt(size, addr, unit, clipped);
            r.Range? ==>
              && r.lo <= addr - FLASH_BASE < r.lo + unit && r.lo % unit == 0
              && r.lo < r.hi <= size
              && (r.hi == r.lo + unit || (clipped && r.hi == size < r.lo + unit))
  {
    var off := addr - FLASH_BASE;
    if 0 <= off < size {
      var q := off / unit;
      assert off == q * unit + off % unit;
      DivisionIs(q * unit, unit, q, 0);
    }
  }

  // ----- Runs --------------------------------------------------------------------------

  ghost predicate Run(states: seq<Flash>, events: seq<Event>) {
    && |states| == |events| + 1
    && forall i {:trigger events[i]} :: 0 <= i < |events| ==> states[i + 1] == Step(states[i], events[i])
  }

  // At event k, byte i could be erased.
  ghost predicate Exposed(states: seq<Flash>, events: seq<Event>, i: nat, k: nat)
    requires k < |events| < |states|
  {
    states[k].unlocked && !Protected(states[k].wpr, i) &&
    exists lo: nat, hi: nat :: lo <= i < hi && Erases(states[k], events[k], lo, hi)
  }

  // In every run a byte keeps its value or reads 0xFF, and it reads as it did before as
  // long as the controller was locked or the byte's sector protected at every command.
  lemma {:induction false} RunErases(states: seq<Flash>, events: seq<Event>, i: nat, k: nat)
    requires Run(states, events) && k < |states| && i < |states[0].mem|
    ensures |states[k].mem| == |states[0].mem|
    ensures states[k].mem[i] == states[0].mem[i] || states[k].mem[i] == 0xFF
    ensures (forall j :: 0 <= j < k ==> !Exposed(states, events, i, j)) ==> states[k].mem[i] == states[0].mem[i]
  {
    if k > 0 {
      var s, e := states[k - 1], events[k - 1];
      RunErases(states, events, i, k - 1);
      StepErases(s, e);
      if lo: nat, hi: nat :| Erases(s, e, lo, hi) {
        assert states[k].mem == Erased(s.mem, lo, hi);
        if lo <= i < hi { assert Exposed(states, events, i, k - 1); }
      }
    }
  }

  // The two key streams: the main keys unlock the controller, the option keys set OPTWRE.
  datatype Stream = MainKeys | OptionKeys

  function KeyIn(e: Event, keys: Stream): Option<nat> {
    if e.Key? && keys == MainKeys then Some(e.value)
    else if e.OptionKey? && keys == OptionKeys then Some(e.value)
    else None
  }

  // The last value written to a stream among the first n events, if no reset has come since.
  function KeyBefore(events: seq<Event>, n: nat, keys: Stream): Option<nat>
    requires n <= |events|
  {
    if n == 0 || events[n - 1] == Reset then None
    else if KeyIn(events[n - 1], keys).Some? then KeyIn(events[n - 1], keys)
    else KeyBefore(events, n - 1, keys)
  }

  // KEY2 directly behind KEY1.
  predicate KeyPair(events: seq<Event>, j: nat, keys: Stream)
    requires j < |events|
  {
    KeyIn(events[j], keys) == Some(KEY2) && KeyBefore(events, j, keys) == Some(KEY1)
  }

  // A control write that leaves OPTWRE set.
  predicate Enables(e: Event) {
    e.Control? && OPTWRE in e.bits && LOCK !in e.bits
  }

  predicate Opens(events: seq<Event>, j: nat, keys: Stream)
    requires j < |events|
  {
    KeyPair(events, j, keys) || (keys == OptionKeys && Enables(events[j]))
  }

  predicate Closes(e: Event, keys: Stream) {
    e == Reset || (e.Control? && if keys == MainKeys then LOCK in e.bits else !Enables(e))
  }

  ghost predicate OpenSince(events: seq<Event>, n: nat, keys: Stream, j: nat)
    requires n <= |events|
  {
    j < n && Opens(events, j, keys) && forall k :: j < k < n ==> !Closes(events[k], keys)
  }

  ghost predicate Open(events: seq<Event>, n: nat, keys: Stream)
    requires n <= |events|
  {
    exists j: nat :: OpenSince(events, n, keys, j)
  }

  lemma OpenNext(events: seq<Event>, n: nat, keys: Stream)
    requires 0 < n <= |events|
    ensures Open(events, n, keys) <==>
            Opens(events, n - 1, keys) || (Open(events, n - 1, keys) && !Closes(events[n - 1], keys))
  {
    if Opens(events, n - 1, keys) { assert OpenSince(events, n, keys, n - 1); }
    if Open(events, n - 1, keys) && !Closes(events[n - 1], keys) {
      var j: nat :| OpenSince(events, n - 1, keys, j);
      assert OpenSince(events, n, keys, j);
    }
    if Open(events, n, keys) && !Opens(events, n - 1, keys) {
      var j: nat :| OpenSince(events, n, keys, j);
      assert OpenSince(events, n - 1, keys, j);
    }
  }

  // The controller is unlocked exactly when, since the last lock or reset, KEY2 has
  // directly followed KEY1; locking does not interrupt the key sequence.
  lemma {:induction false} UnlockedIff(states: seq<Flash>, events: seq<Event>, n: nat)
    requires Run(states, events) && n < |states| && !states[0].unlocked && !states[0].keyStep
    ensures states[n].unlocked <==> Open(events, n, MainKeys)
    ensures states[n].keyStep <==> KeyBefore(events, n, MainKeys) == Some(KEY1)
  {
    if n > 0 {
      UnlockedIff(states, events, n - 1);
      OpenNext(events, n, MainKeys);
      assert states[n] == Step(states[n - 1], events[n - 1]);
      MainStep(states[n - 1], events[n - 1]);
    }
  }

  lemma MainStep(s: Flash, e: Event)
    ensures Step(s, e).unlocked <==> (e == Key(KEY2) && s.keyStep) || (s.unlocked && !Closes(e, MainKeys))
    ensures Step(s, e).keyStep <==> e == Key(KEY1) || (s.keyStep && !e.Key? && e != Reset)
  {
  }

  // Option writes are enabled exactly when, since the last reset or control write without
  // that bit, the option keys came in order, or a control write set the bit, which it can
  // do without any key.
  lemma {:induction false} OptionWritesIff(states: seq<Flash>, events: seq<Event>, n: nat)
    requires Run(states, events) && n < |states| && OPTWRE !in states[0].ctlr && !states[0].obKeyStep
    ensures OPTWRE in states[n].ctlr <==> Open(events, n, OptionKeys)
    ensures states[n].obKeyStep <==> KeyBefore(events, n, OptionKeys) == Some(KEY1)
  {
    if n > 0 {
      OptionWritesIff(states, events, n - 1);
      OpenNext(events, n, OptionKeys);
      assert states[n] == Step(states[n - 1], events[n - 1]);
      OptionStep(states[n - 1], events[n - 1]);
    }
  }

  lemma OptionStep(s: Flash, e: Event)
    ensures OPTWRE in Step(s, e).ctlr <==>
            (e == OptionKey(KEY2) && s.obKeyStep) || Enables(e) || (OPTWRE in s.ctlr && !Closes(e, OptionKeys))
    ensures Step(s, e).obKeyStep <==>
            e == OptionKey(KEY1) || (s.obKeyStep && !e.OptionKey? && e != Reset)
  {
  }

  // The LOCK bit reads as the lock until firmware writes CTLR without it while locked:
  // the bit then reads 0 although the controller stays locked.
  lemma LockBitShowsLock(s: Flash, e: Event)
    requires LOCK in s.ctlr <==> !s.unlocked
    ensures (LOCK in Step(s, e).ctlr <==> !Step(s, e).unlocked) <==>
            !(e.Control? && LOCK !in e.bits && !s.unlocked)
  {
  }

  // After a reset, a control write of nothing: locked, and the bit reads 0.
  lemma LockBitLost(s: Flash)
    ensures var r := Step(s, Reset);
            var t := Step(r, Control({}));
            LOCK in r.ctlr && !r.unlocked && LOCK !in t.ctlr && !t.unlocked
  {
  }

  // After a reset, a control write of OPTWRE alone: enabled without a key, and locked.
  lemma OptionWritesWithoutKey(s: Flash)
    ensures var t := Step(Step(s, Reset), Control({OPTWRE}));
            OPTWRE in t.ctlr && !t.unlocked
  {
  }
}
