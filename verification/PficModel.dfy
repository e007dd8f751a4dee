// The interrupt slot of the PFIC model: one shared "override" slot, the MEIP line and
// the enable, pending and active registers, seen as values.
//
// The eight 32-bit words of each register bank are the set of interrupt numbers whose
// bit is 1.  The operations here are the simple form that the class in Pfic.dfy refines:
// none of them is recursive through the rescan.
module PficModel {

  // Word index 0..7, bit 0..31.
  type Irq = n: nat | n < 256

  const FREE: Irq := 0
  const SYSTICK_IRQ: Irq := 12
  const SOFTWARE_IRQ: Irq := 14
  const USART1_IRQ: Irq := 53
  const ETH10M_IRQ: Irq := 61
  const ETH_IRQ: Irq := 77
  const USBFS_IRQ: Irq := 83
  const USBHS_IRQ: Irq := 85
  const LITE_IRQS: seq<Irq> := [54, 55, 68, 69, 87, 88, 89]
  const TIM_IRQS: seq<Irq> := [44, 45, 46, 66, 70, 71]
  const DMA1_IRQS: seq<Irq> := [27, 28, 29, 30, 31, 32, 33]
  const DMA2_IRQS: seq<Irq> := [72, 73, 74, 75, 76, 98, 99]
  const DMA2X_IRQS: seq<Irq> := [100, 101, 102, 103]
  const DMA_IRQS: seq<Irq> := DMA1_IRQS + DMA2_IRQS + DMA2X_IRQS

  // How a peripheral treats the slot.
  //   Level   - USART1 and the light USARTs: claim while requesting, release on withdrawal
  //   Latched - the timers and ETH: claim once per request, guarded by irq_active
  //   Relatch - ETH10M: like Latched, but may re-inject once its handler has returned
  //   Usb     - the two USB hosts: no irq_active, a switched-off host releases silently
  //   Dma     - one-shot: claims a free slot, otherwise leaves a pending bit
  datatype Kind = NoClient | Level | Latched | Relatch | Usb | Dma

  function KindOf(n: Irq): Kind {
    if n == 53 || n == 54 || n == 55 || n == 68 || n == 69 || n == 87 || n == 88 || n == 89 then Level
    else if n == 44 || n == 45 || n == 46 || n == 66 || n == 70 || n == 71 || n == 77 then Latched
    else if n == 61 then Relatch
    else if n == 83 || n == 85 then Usb
    else if 27 <= n <= 33 || 72 <= n <= 76 || 98 <= n <= 103 then Dma
    else NoClient
  }

  datatype Pfic = Pfic(
    ienr: set<Irq>,      // enabled
    ipr: set<Irq>,       // pending
    iactr: set<Irq>,     // active
    slot: Irq,           // the override slot, 0 when free
    meip: bool,          // MIP.MEIP
    inIsr: nat,          // nesting depth of vectored handlers
    line: set<Irq>,      // peripherals whose own flags and enables raise a request
    host: set<Irq>,      // USB hosts in host mode
    tcie: set<Irq>,      // DMA channels with the completion interrupt enabled
    tcif: set<Irq>,      // DMA channels with the completion flag set
    present: set<Irq>,   // optional devices that were created
    active: set<Irq>,    // irq_active of the Latched and Relatch clients
    claims: seq<Irq>)    // history: slot injections made by Latched clients

  // Both ETH blocks and both USB hosts exist only on some boards.
  predicate Optional(n: Irq) {
    n == ETH10M_IRQ || n == ETH_IRQ || n == USBFS_IRQ || n == USBHS_IRQ
  }

  predicate Present(s: Pfic, n: Irq) {
    Optional(n) ==> n in s.present
  }

  predicate Wants(s: Pfic, n: Irq) {
    n in s.ienr &&
    match KindOf(n)
    case NoClient => false
    case Usb => n in s.host && n in s.line
    case Dma => n in s.tcie && n in s.tcif
    case _ => n in s.line
  }

  predicate Guarded(n: Irq) {
    KindOf(n) == Latched || KindOf(n) == Relatch
  }

  // Would this client take a free slot?
  predicate Eligible(s: Pfic, n: Irq) {
    Present(s, n) && Wants(s, n) && (Guarded(n) ==> n !in s.active)
  }

  // ----- The rescan table --------------------------------------------------------------

  datatype Client =
    | SwIrq | SysTick | Usart1 | UsartLite | TimAll | Eth10m | Eth | UsbHs | UsbFs | DmaAll

  datatype Entry = Entry(mask: set<Irq>, who: Client)

  function Members(who: Client): seq<Irq> {
    match who
    case SwIrq => []
    case SysTick => []
    case Usart1 => [USART1_IRQ]
    case UsartLite => LITE_IRQS
    case TimAll => TIM_IRQS
    case Eth10m => [ETH10M_IRQ]
    case Eth => [ETH_IRQ]
    case UsbHs => [USBHS_IRQ]
    case UsbFs => [USBFS_IRQ]
    case DmaAll => DMA_IRQS
  }

  const FRONT_TABLE: seq<Entry> := [
    Entry({SOFTWARE_IRQ}, SwIrq),
    Entry({SYSTICK_IRQ}, SysTick),
    Entry({USART1_IRQ}, Usart1),
    Entry({54, 55}, UsartLite),
    Entry({44, 45, 46}, TimAll),
    Entry({ETH10M_IRQ}, Eth10m),
    Entry({68, 69, 87, 88, 89}, UsartLite),
    Entry({ETH_IRQ}, Eth),
    Entry({66, 70, 71}, TimAll),
    Entry({USBHS_IRQ}, UsbHs),
    Entry({USBFS_IRQ}, UsbFs)]

  const DMA_TABLE: seq<Entry> := [
    Entry({27, 28, 29, 30, 31}, DmaAll),
    Entry({32, 33}, DmaAll),
    Entry({72, 73, 74, 75, 76}, DmaAll),
    Entry({98, 99, 100, 101, 102, 103}, DmaAll)]

  const TABLE: seq<Entry> := FRONT_TABLE + DMA_TABLE

  // The order in which a scan of the given entries visits the clients.
  function Order(t: seq<Entry>): seq<Irq> {
    if t == [] then [] else Members(t[0].who) + Order(t[1..])
  }

  // IRQs that the software-pending scan skips.
  predicate Covered(n: Irq) {
    n == SYSTICK_IRQ || n == SOFTWARE_IRQ || KindOf(n) != NoClient
  }

  // ----- Slot operations ---------------------------------------------------------------

  function Claim(s: Pfic, n: Irq): Pfic {
    s.(slot := n, meip := true,
       iactr := if KindOf(n) == Dma then s.iactr else s.iactr + {n},
       active := if Guarded(n) then s.active + {n} else s.active,
       claims := if KindOf(n) == Latched then s.claims + [n] else s.claims)
  }

  function Release(s: Pfic): Pfic {
    s.(slot := FREE, meip := false, iactr := s.iactr - {s.slot})
  }

  // The first client of the visiting order that would take the free slot, or 0.
  function First(s: Pfic, order: seq<Irq>): Irq {
    if order == [] then FREE
    else if Eligible(s, order[0]) then order[0]
    else First(s, order[1..])
  }

  function WantingDma(s: Pfic): set<Irq> {
    set n | n in s.ienr && KindOf(n) == Dma && Wants(s, n)
  }

  // What a whole rescan does to a free slot: the first eligible client in table order
  // gets it, latches of clients that no longer request are reset, and every requesting
  // DMA channel is left pending.
  function Handover(s: Pfic): Pfic {
    var w := First(s, Order(TABLE));
    var settled := s.(
      active := (set n | n in s.active && (Guarded(n) && Present(s, n) ==> Wants(s, n))),
      ipr := s.ipr + WantingDma(s));
    if w == FREE then settled else Claim(settled, w)
  }

  // One client's resync.
  function Visit(s: Pfic, n: Irq): Pfic {
    match KindOf(n)
    case NoClient => s
    case Level =>
      if Wants(s, n) then
        if s.slot == FREE || s.slot == n then Claim(s, n) else s
      else if s.slot != n then s
      else if s.inIsr > 0 then s.(meip := false)
      else Handover(Release(s))
    case Latched =>
      if !Present(s, n) then s
      else if !Wants(s, n) then
        var r := if s.slot == n then Handover(Release(s)) else s;
        r.(active := r.active - {n})
      else if n in s.active then s
      else if s.slot == FREE || s.slot == n then Claim(s, n)
      else s
    case Relatch =>
      if !Present(s, n) then s
      else if !Wants(s, n) then
        var r := if s.slot == n then Handover(Release(s)) else s;
        r.(active := r.active - {n})
      else if n in s.active then
        if s.inIsr == 0 && s.slot == n then Claim(Release(s), n) else s
      else if s.slot == FREE || s.slot == n then Claim(s, n)
      else s
    case Usb =>
      if !Present(s, n) then s
      else if n !in s.host || n !in s.ienr then
        if s.slot == n then Release(s) else s
      else if n in s.line then
        if s.slot == FREE || s.slot == n then Claim(s, n) else s
      else if s.slot == n then Handover(Release(s))
      else s
    case Dma =>
      if !Wants(s, n) then s else Fire(s, n)
  }

  // ch32_dma_fire_irq on an enabled channel.
  function Fire(s: Pfic, n: Irq): Pfic {
    if n !in s.ienr then s
    else if s.slot != FREE then s.(ipr := s.ipr + {n})
    else s.(slot := n, meip := true)
  }

  function Visits(s: Pfic, order: seq<Irq>): Pfic {
    if order == [] then s
    else Visit(Visits(s, order[..|order| - 1]), order[|order| - 1])
  }

  // ----- Software-pended interrupts ----------------------------------------------------

  // Count-trailing-zeros over a non-empty bank, from bit k on.
  function Lowest(c: set<Irq>, k: nat := 0): (m: Irq)
    requires c != {} && forall x :: x in c ==> k <= x
    ensures m in c && forall x :: x in c ==> m <= x
    decreases 256 - k
  {
    if k in c then k else
      assert exists x :: x in c && k < x;
      Lowest(c, k + 1)
  }

  // ch32_pfic_inject_meip_for_irq
  function Inject(s: Pfic, n: Irq): Pfic {
    if s.slot != FREE then s
    else s.(ipr := s.ipr - {n}, iactr := s.iactr + {n}, slot := n, meip := true)
  }

  function SoftwareCandidates(s: Pfic): set<Irq> {
    set n | n in s.ipr && n in s.ienr && !Covered(n)
  }

  function SoftwarePending(s: Pfic): Pfic {
    if s.slot != FREE || SoftwareCandidates(s) == {} then s
    else Inject(s, Lowest(SoftwareCandidates(s)))
  }

  // ----- Steps -------------------------------------------------------------------------

  // The three DMA flag-clear registers.
  datatype Controller = Dma1 | Dma2 | Dma2Extension {
    function Irqs(): seq<Irq> {
      match this
      case Dma1 => DMA1_IRQS
      case Dma2 => DMA2_IRQS
      case Dma2Extension => DMA2X_IRQS
    }
  }

  // Everything that can happen to the slot, the CPU and the peripherals' own flags being
  // the environment.  Lines covers any change of device flags; the resync that the device
  // then performs is a Resync or TimUpdate event of its own.
  datatype Event =
    | Lines(line: set<Irq>, host: set<Irq>, tcie: set<Irq>, tcif: set<Irq>)
    | Resync(who: Client)
    | TimUpdate(tim: nat)
    | EnableWrite(bits: set<Irq>)
    | DisableWrite(bits: set<Irq>)
    | PendWrite(bits: set<Irq>)
    | UnpendWrite(bits: set<Irq>)
    | DmaDone(ch: Irq)
    | PumpDone(ch: Irq)
    | DmaAck(controller: Controller, flags: set<Irq>)
    | Trap
    | Mret
    | MachineReset

  // Bits of one 32-bit register word.
  predicate OneWord(bits: set<Irq>) {
    forall a, b :: a in bits && b in bits ==> a / 32 == b / 32
  }

  function Changed(t: seq<Entry>, bits: set<Irq>): seq<Entry> {
    if t == [] then []
    else (if t[0].mask * bits != {} then [t[0]] else []) + Changed(t[1..], bits)
  }

  function EnableWriteSpec(s: Pfic, bits: set<Irq>): Pfic {
    Visits(s.(ienr := s.ienr + bits), Order(Changed(TABLE, bits - s.ienr)))
  }

  function DisableWriteSpec(s: Pfic, bits: set<Irq>): Pfic {
    Visits(s.(ienr := s.ienr - bits), Order(Changed(TABLE, bits * s.ienr)))
  }

  function PendWriteSpec(s: Pfic, bits: set<Irq>): Pfic {
    var p := s.(ipr := s.ipr + bits);
    var enabled := (p.ienr * bits) - {SOFTWARE_IRQ};
    if enabled == {} then p else Inject(p, Lowest(enabled))
  }

  function PumpDoneSpec(s: Pfic, ch: Irq): Pfic {
    if ch in s.ienr && s.slot == FREE then s.(slot := ch, meip := true) else s
  }

  function DmaAckSpec(s: Pfic, controller: Controller, flags: set<Irq>): Pfic {
    var a := s.(tcif := s.tcif - flags);
    if a.slot in controller.Irqs() && a.slot !in a.tcif then a.(slot := FREE, meip := false) else a
  }

  function OnMret(s: Pfic): Pfic {
    SoftwarePending(Handover(Release(s)))
  }

  // The trap return: the callback runs on every return from a vectored handler while the
  // slot is occupied, whatever interrupt is being returned from.
  function MretSpec(s: Pfic): Pfic {
    if s.slot == FREE then Returned(s) else OnMret(Returned(s))
  }

  function Returned(s: Pfic): Pfic {
    s.(inIsr := if s.inIsr > 0 then s.inIsr - 1 else 0)
  }

  const RESET_IENR: set<Irq> := {2, 3}

  // Latches that no reset reaches: those of devices that were never created.
  function Unguarded(active: set<Irq>, present: set<Irq>): set<Irq> {
    set n | n in active && !(Guarded(n) && (Optional(n) ==> n in present))
  }

  // A machine reset.  The CPU reset clears the slot but leaves MIP alone, so MEIP
  // survives unless a USART owned the slot.
  function MachineResetSpec(s: Pfic): Pfic {
    s.(ienr := RESET_IENR, ipr := {}, iactr := {}, slot := FREE,
       meip := s.meip && KindOf(s.slot) != Level,
       inIsr := 0, line := {}, host := {}, tcie := {}, tcif := {},
       active := Unguarded(s.active, s.present))
  }

  predicate ValidEvent(e: Event) {
    match e
    case TimUpdate(tim) => tim < |TIM_IRQS|
    case EnableWrite(bits) => OneWord(bits)
    case DisableWrite(bits) => OneWord(bits)
    case PendWrite(bits) => OneWord(bits)
    case UnpendWrite(bits) => OneWord(bits)
    case DmaDone(ch) => KindOf(ch) == Dma
    case PumpDone(ch) => KindOf(ch) == Dma
    case DmaAck(controller, flags) => forall n :: n in flags ==> n in controller.Irqs()
    case _ => true
  }

  function Step(s: Pfic, e: Event): Pfic
    requires ValidEvent(e)
  {
    match e
    case Lines(line, host, tcie, tcif) =>
      s.(line := line, host := host, tcie := tcie, tcif := tcif)
    case Resync(who) => Visits(s, Members(who))
    case TimUpdate(tim) => Visit(s, TIM_IRQS[tim])
    case EnableWrite(bits) => EnableWriteSpec(s, bits)
    case DisableWrite(bits) => DisableWriteSpec(s, bits)
    case PendWrite(bits) => PendWriteSpec(s, bits)
    case UnpendWrite(bits) => s.(ipr := s.ipr - bits)
    case DmaDone(ch) => Fire(s, ch)
    case PumpDone(ch) => PumpDoneSpec(s, ch)
    case DmaAck(controller, flags) => DmaAckSpec(s, controller, flags)
    case Trap => s.(inIsr := s.inIsr + 1)
    case Mret => MretSpec(s)
    case MachineReset => MachineResetSpec(s)
  }
}
