// The DMA engine: one channel's transfer over the bus, element by element.
module DmaEngine {
  import opened Arithmetic
  import opened Basics
  import opened GuestMemory

  // Guest memory as the bus answers: an address that is not a key gives a bus error.
  type Bus = map<nat, byte>

  const WRAP: nat := 0x1_0000_0000

  // A channel as its configuration register describes it.
  datatype Config = Config(toPeriph: bool, pinc: bool, minc: bool, psize: nat, msize: nat) {
    predicate Valid() { IsSize(psize) && IsSize(msize) }
  }

  predicate IsSize(n: nat) { n == 1 || n == 2 || n == 4 }

  // dma_unit_size: 1 and 2 mean half-word and word; 0 and the reserved 3 mean byte.
  function UnitSize(field: nat): (size: nat)
    ensures IsSize(size) && (size == 2 <==> field == 1) && (size == 4 <==> field == 2)
  {
    if field == 1 then 2 else if field == 2 then 4 else 1
  }

  function Decode(cfgr: nat): (c: Config)
    ensures c.Valid()
  {
    Config(Bit(cfgr, 0x10), Bit(cfgr, 0x40), Bit(cfgr, 0x80),
           UnitSize(cfgr / 0x100 % 4), UnitSize(cfgr / 0x400 % 4))
  }

  predicate Bit(w: nat, weight: nat)
    requires weight > 0
  {
    w / weight % 2 == 1
  }

  // The register value for a configuration: enables in bits 0 to 3, circular mode in bit 5,
  // priority and the rest from bit 12 up.
  function ConfigWord(c: Config, enables: nat, circular: bool, upper: nat): nat
    requires c.Valid()
  {
    enables + 0x10 * One(c.toPeriph) + 0x20 * One(circular) + 0x40 * One(c.pinc) + 0x80 * One(c.minc) +
    0x100 * SizeField(c.psize) + 0x400 * SizeField(c.msize) + 0x1000 * upper
  }

  function One(b: bool): nat { if b then 1 else 0 }

  function SizeField(size: nat): (f: nat)
    requires IsSize(size)
    ensures f < 3 && UnitSize(f) == size
  {
    if size == 1 then 0 else if size == 2 then 1 else 2
  }

  // Decoding inverts it, whatever the other bits.
  lemma DecodeInverts(c: Config, enables: nat, circular: bool, upper: nat)
    requires c.Valid() && enables < 0x10
    ensures Decode(ConfigWord(c, enables, circular, upper)) == c
    ensures ConfigWord(c, enables, circular, upper) % 0x10 == enables
  {
    var w := ConfigWord(c, enables, circular, upper);
    ConfigFields(w, enables, One(c.toPeriph), One(circular), One(c.pinc), One(c.minc),
                 SizeField(c.psize), SizeField(c.msize), upper);
    BitIsOne(w / 0x10 % 2, c.toPeriph);
    BitIsOne(w / 0x40 % 2, c.pinc);
    BitIsOne(w / 0x80 % 2, c.minc);
  }

  lemma BitIsOne(x: nat, b: bool)
    ensures x == One(b) ==> (x == 1) == b
  {
  }

  lemma ConfigFields(w: nat, e: nat, d: nat, r: nat, p: nat, m: nat, ps: nat, ms: nat, up: nat)
    requires e < 0x10 && d < 2 && r < 2 && p < 2 && m < 2 && ps < 4 && ms < 4
    requires w == e + 0x10 * d + 0x20 * r + 0x40 * p + 0x80 * m + 0x100 * ps + 0x400 * ms + 0x1000 * up
    ensures w % 0x10 == e && w / 0x10 % 2 == d && w / 0x40 % 2 == p && w / 0x80 % 2 == m
    ensures w / 0x100 % 4 == ps && w / 0x400 % 4 == ms
  {
    var high := ms + 4 * up;
    var sizes := ps + 4 * high;
    DivisionIs(w, 0x10, d + 2 * (r + 2 * p + 4 * m + 8 * sizes), e);
    DivisionIs(w, 0x40, p + 2 * (m + 2 * sizes), e + 0x10 * d + 0x20 * r);
    DivisionIs(w, 0x80, m + 2 * sizes, e + 0x10 * d + 0x20 * r + 0x40 * p);
    DivisionIs(w, 0x100, sizes, e + 0x10 * d + 0x20 * r + 0x40 * p + 0x80 * m);
    DivisionIs(w, 0x400, high, e + 0x10 * d + 0x20 * r + 0x40 * p + 0x80 * m + 0x100 * ps);
    DivisionIs(d + 2 * (r + 2 * p + 4 * m + 8 * sizes), 2, r + 2 * p + 4 * m + 8 * sizes, d);
    DivisionIs(p + 2 * (m + 2 * sizes), 2, m + 2 * sizes, p);
    DivisionIs(m + 2 * sizes, 2, sizes, m);
    DivisionIs(sizes, 4, high, ps);
    DivisionIs(high, 4, up, ms);
  }

  // ----- The reference transfer --------------------------------------------------------

  // Where element i is read and written, as 32-bit addresses.
  datatype Span = Span(base: nat, step: nat, size: nat) {
    function At(i: nat): (a: nat) {
      if i == 0 then base else At(i - 1) + step
    }

    function Addr(i: nat): (a: nat)
      ensures a < WRAP
    {
      At(i) % WRAP
    }

    // The end of the last of n elements.
    function End(n: nat): nat {
      if n == 0 then base else At(n - 1) + size
    }
  }

  lemma {:induction false} AtIs(s: Span, i: nat)
    ensures s.At(i) == s.base + i * s.step
  {
    if i > 0 { AtIs(s, i - 1); }
  }

  lemma {:induction false} AtAscends(s: Span, i: nat, j: nat)
    requires i <= j
    ensures s.base <= s.At(i) <= s.At(j) && (i < j ==> s.At(i) + s.step <= s.At(j))
    decreases j
  {
    if i < j { AtAscends(s, i, j - 1); } else if i > 0 { AtAscends(s, i - 1, i - 1); }
  }

  function Source(c: Config, paddr: nat, maddr: nat): Span {
    if c.toPeriph then Memory(c, maddr) else Peripheral(c, paddr)
  }

  function Target(c: Config, paddr: nat, maddr: nat): Span {
    if c.toPeriph then Peripheral(c, paddr) else Memory(c, maddr)
  }

  function Memory(c: Config, maddr: nat): Span { Span(maddr, if c.minc then c.msize else 0, c.msize) }

  function Peripheral(c: Config, paddr: nat): Span { Span(paddr, if c.pinc then c.psize else 0, c.psize) }

  predicate OnBus(bus: Bus, a: nat, size: nat) {
    forall x :: a <= x < a + size ==> x in bus
  }

  function Fetch(bus: Bus, a: nat, size: nat): (bs: seq<byte>)
    ensures |bs| == size
  {
    seq<byte>(size, j requires 0 <= j < size => if a + j in bus then bus[a + j] else 0)
  }

  // A write reaches every mapped byte of its range.
  function Store(bus: Bus, a: nat, bs: seq<byte>): (r: Bus)
    ensures r.Keys == bus.Keys
  {
    map x | x in bus :: if a <= x < a + |bs| then bs[x - a] else bus[x]
  }

  // Zero-extended or truncated to the given number of bytes.
  function Resize(bs: seq<byte>, size: nat): (r: seq<byte>)
    ensures |r| == size
  {
    seq<byte>(size, j requires 0 <= j < size => if j < |bs| then bs[j] else 0)
  }

  function MoveOne(bus: Bus, src: nat, ssize: nat, dst: nat, dsize: nat): (r: Bus)
    ensures r.Keys == bus.Keys
  {
    Store(bus, dst, Resize(Fetch(bus, src, ssize), dsize))
  }

  // Memory after the first k elements, moved one after the other.
  function Moved(bus: Bus, src: Span, dst: Span, k: nat): (r: Bus)
    ensures r.Keys == bus.Keys
  {
    if k == 0 then bus
    else MoveOne(Moved(bus, src, dst, k - 1), src.Addr(k - 1), src.size, dst.Addr(k - 1), dst.size)
  }

  predicate Answers(bus: Bus, src: Span, dst: Span, i: nat) {
    OnBus(bus, src.Addr(i), src.size) && OnBus(bus, dst.Addr(i), dst.size)
  }

  // How many of the elements from i up to n go through without a bus error.
  function Reach(bus: Bus, src: Span, dst: Span, i: nat, n: nat): (k: nat)
    requires i <= n
    ensures i <= k <= n
    ensures forall j :: i <= j < k ==> Answers(bus, src, dst, j)
    ensures k < n ==> !Answers(bus, src, dst, k)
    decreases n - i
  {
    if i == n || !Answers(bus, src, dst, i) then i else Reach(bus, src, dst, i + 1, n)
  }

  // Memory after a transfer of n elements.  If the write of an element fails, its mapped
  // bytes have been written all the same; if the read fails nothing of it is.
  function Transferred(bus: Bus, src: Span, dst: Span, n: nat): Bus {
    var k := Reach(bus, src, dst, 0, n);
    if k < n && OnBus(bus, src.Addr(k), src.size) then Moved(bus, src, dst, k + 1)
    else Moved(bus, src, dst, k)
  }

  // ----- What a transfer amounts to ----------------------------------------------------

  // A plain block: n consecutive targets without wrap-around, away from the source.
  ghost predicate Block(bus: Bus, src: Span, dst: Span, n: nat) {
    && dst.step == dst.size && src.size > 0 && dst.size > 0
    && src.End(n) <= WRAP && dst.End(n) <= WRAP
    && (src.End(n) <= dst.base || dst.End(n) <= src.base)
    && forall i: nat :: i < n ==> Answers(bus, src, dst, i)
  }

  // Byte j of target element i: byte j of source element i, or zero beyond its width.
  ghost predicate CopiedByte(bus: Bus, r: Bus, src: Span, dst: Span, i: nat, j: nat) {
    var x, y := dst.At(i) + j, src.At(i) + j;
    x in r && (j < src.size ==> y in bus) && r[x] == if j < src.size then bus[y] else 0
  }

  ghost predicate Kept(bus: Bus, r: Bus, lo: nat, hi: nat) {
    r.Keys == bus.Keys && forall x :: x in bus && !(lo <= x < hi) ==> r[x] == bus[x]
  }

  ghost predicate CopiedBlock(bus: Bus, r: Bus, src: Span, dst: Span, k: nat) {
    && Kept(bus, r, dst.base, dst.At(k))
    && forall i: nat, j: nat :: i < k && j < dst.size ==> CopiedByte(bus, r, src, dst, i, j)
  }

  // A block transfer copies every element from memory as it was before the transfer, and
  // changes nothing outside the target block.
  lemma {:induction false} BlockCopies(bus: Bus, src: Span, dst: Span, n: nat, k: nat)
    requires Block(bus, src, dst, n) && k <= n
    ensures CopiedBlock(bus, Moved(bus, src, dst, k), src, dst, k)
  {
    if k > 0 {
      var i := k - 1;
      BlockCopies(bus, src, dst, n, i);
      BlockAddresses(bus, src, dst, n, i);
      BlockNext(bus, Moved(bus, src, dst, i), src, dst, i);
    }
  }

  lemma BlockNext(bus: Bus, before: Bus, src: Span, dst: Span, i: nat)
    requires CopiedBlock(bus, before, src, dst, i) && dst.step == dst.size
    requires OnBus(bus, src.At(i), src.size) && OnBus(bus, dst.At(i), dst.size)
    requires src.At(i) + src.size <= dst.base || dst.At(i) <= src.At(i)
    ensures CopiedBlock(bus, MoveOne(before, src.At(i), src.size, dst.At(i), dst.size), src, dst, i + 1)
  {
    var bs := Resize(Fetch(before, src.At(i), src.size), dst.size);
    FetchSame(before, bus, src.At(i), src.size, dst.base, dst.At(i));
    AtAscends(dst, 0, i);
    SameKeys(bus, before, dst.At(i), dst.size);
    StoreKeeps(bus, before, dst.base, dst.At(i), bs);
    forall e: nat, j: nat | e < i + 1 && j < dst.size
      ensures CopiedByte(bus, Store(before, dst.At(i), bs), src, dst, e, j)
    {
      if e < i {
        AtAscends(dst, e, i);
        OldByte(bus, before, src, dst, e, j, dst.At(i), bs);
      } else {
        NewByte(bus, before, src, dst, i, bs, j);
      }
    }
  }

  lemma NewByte(bus: Bus, before: Bus, src: Span, dst: Span, i: nat, bs: seq<byte>, j: nat)
    requires j < dst.size && OnBus(bus, src.At(i), src.size) && OnBus(before, dst.At(i), dst.size)
    requires bs == Resize(Fetch(bus, src.At(i), src.size), dst.size)
    ensures CopiedByte(bus, Store(before, dst.At(i), bs), src, dst, i, j)
  {
    StoredAt(before, dst.At(i), bs, j);
    FetchedAt(bus, src.At(i), src.size, dst.size, j);
  }

  lemma OldByte(bus: Bus, before: Bus, src: Span, dst: Span, e: nat, j: nat, d: nat, bs: seq<byte>)
    requires CopiedByte(bus, before, src, dst, e, j) && dst.At(e) + j < d
    ensures CopiedByte(bus, Store(before, d, bs), src, dst, e, j)
  {
  }

  lemma StoredAt(bus: Bus, d: nat, bs: seq<byte>, j: nat)
    requires j < |bs| && OnBus(bus, d, |bs|)
    ensures d + j in bus && Store(bus, d, bs)[d + j] == bs[j]
  {
  }

  lemma FetchedAt(bus: Bus, a: nat, ssize: nat, dsize: nat, j: nat)
    requires j < dsize && OnBus(bus, a, ssize)
    ensures j < ssize ==> a + j in bus
    ensures Resize(Fetch(bus, a, ssize), dsize)[j] == if j < ssize then bus[a + j] else 0
  {
  }

  lemma SameKeys(bus: Bus, r: Bus, a: nat, size: nat)
    requires r.Keys == bus.Keys
    ensures OnBus(r, a, size) == OnBus(bus, a, size)
  {
  }

  lemma StoreKeeps(bus: Bus, before: Bus, lo: nat, d: nat, bs: seq<byte>)
    requires Kept(bus, before, lo, d) && lo <= d
    ensures Kept(bus, Store(before, d, bs), lo, d + |bs|)
  {
  }

  lemma BlockAddresses(bus: Bus, src: Span, dst: Span, n: nat, i: nat)
    requires Block(bus, src, dst, n) && i < n
    ensures src.Addr(i) == src.At(i) && dst.Addr(i) == dst.At(i)
    ensures OnBus(bus, src.At(i), src.size) && OnBus(bus, dst.At(i), dst.size)
    ensures src.At(i) + src.size <= dst.base || dst.At(i) <= src.At(i)
  {
    AtAscends(src, i, n - 1);
    AtAscends(dst, i, n - 1);
    NoWrap(src.At(i));
    NoWrap(dst.At(i));
    assert Answers(bus, src, dst, i);
  }

  lemma NoWrap(a: nat)
    ensures a < WRAP ==> a % WRAP == a
  {
  }

  lemma FetchSame(r: Bus, bus: Bus, a: nat, size: nat, lo: nat, hi: nat)
    requires Kept(bus, r, lo, hi) && (a + size <= lo || hi <= a)
    ensures Fetch(r, a, size) == Fetch(bus, a, size)
  {
  }

  // So a whole transfer of a block raises no error and copies it.
  lemma BlockTransfer(bus: Bus, src: Span, dst: Span, n: nat)
    requires Block(bus, src, dst, n)
    ensures Reach(bus, src, dst, 0, n) == n
    ensures CopiedBlock(bus, Transferred(bus, src, dst, n), src, dst, n)
  {
    BlockCopies(bus, src, dst, n, n);
  }

  // A bus error at element k leaves exactly the first k elements transferred, if and only
  // if the element could not be read, or its write would store what the mapped part of the
  // target holds already.
  lemma FaultKeepsPrefix(bus: Bus, src: Span, dst: Span, n: nat)
    requires Reach(bus, src, dst, 0, n) < n
    ensures var k := Reach(bus, src, dst, 0, n);
            var before := Moved(bus, src, dst, k);
            Transferred(bus, src, dst, n) == before <==>
            (OnBus(bus, src.Addr(k), src.size) ==>
               Holds(before, dst.Addr(k), Resize(Fetch(before, src.Addr(k), src.size), dst.size)))
  {
    var k := Reach(bus, src, dst, 0, n);
    var before := Moved(bus, src, dst, k);
    StoreSame(before, dst.Addr(k), Resize(Fetch(before, src.Addr(k), src.size), dst.size));
  }

  // The mapped part of a range holds these bytes.
  ghost predicate Holds(bus: Bus, a: nat, bs: seq<byte>) {
    forall x :: x in bus && a <= x < a + |bs| ==> bus[x] == bs[x - a]
  }

  lemma StoreSame(bus: Bus, a: nat, bs: seq<byte>)
    ensures Store(bus, a, bs) == bus <==> Holds(bus, a, bs)
  {
    var r := Store(bus, a, bs);
    if r == bus {
      forall x | x in bus && a <= x < a + |bs| ensures bus[x] == bs[x - a] {
        assert r[x] == bs[x - a];
      }
    }
  }

  // A half-word written over the end of mapped memory leaves its first byte there.
  lemma FaultLeavesByte()
    ensures var bus, src, dst := map[0 := 7, 1 := 8, 10 := 0], Span(0, 2, 2), Span(10, 2, 2);
            && Reach(bus, src, dst, 0, 1) == 0
            && Transferred(bus, src, dst, 1) != Moved(bus, src, dst, 0)
  {
    var bus: Bus, src, dst := map[0 := 7, 1 := 8, 10 := 0], Span(0, 2, 2), Span(10, 2, 2);
    assert src.Addr(0) == 0 && dst.Addr(0) == 10;
    assert 11 !in bus && OnBus(bus, 0, 2);
    FaultKeepsPrefix(bus, src, dst, 1);
    assert 10 in bus && bus[10] != Resize(Fetch(bus, 0, 2), 2)[0];
  }

  // What a fixed target, such as a port, is given by element i.
  function Given(bus: Bus, src: Span, dst: Span, i: nat): Bus {
    MoveOne(bus, src.At(i), src.size, dst.base, dst.size)
  }

  // A transfer to a fixed target away from the source leaves the last element there, as it
  // was before the transfer, and changes nothing else.
  lemma FixedTargetHoldsLast(bus: Bus, src: Span, dst: Span, n: nat)
    requires n > 0 && dst.step == 0 && src.size > 0 && dst.base < WRAP && src.End(n) <= WRAP
    requires src.End(n) <= dst.base || dst.base + dst.size <= src.base
    ensures (Reach(bus, src, dst, 0, n) == n <==>
             OnBus(bus, dst.base, dst.size) && forall i :: 0 <= i < n ==> OnBus(bus, src.At(i), src.size))
    ensures Reach(bus, src, dst, 0, n) == n ==> Transferred(bus, src, dst, n) == Given(bus, src, dst, n - 1)
  {
    MovedToFixed(bus, src, dst, n);
    FixedReach(bus, src, dst, n);
  }

  lemma FixedReach(bus: Bus, src: Span, dst: Span, n: nat)
    requires n > 0 && dst.step == 0 && src.size > 0 && dst.base < WRAP && src.End(n) <= WRAP
    ensures Reach(bus, src, dst, 0, n) == n <==>
            OnBus(bus, dst.base, dst.size) && forall i :: 0 <= i < n ==> OnBus(bus, src.At(i), src.size)
  {
    var k := Reach(bus, src, dst, 0, n);
    if k < n {
      FixedAddresses(src, dst, n, k);
    } else {
      forall i | 0 <= i < n ensures OnBus(bus, src.At(i), src.size) && OnBus(bus, dst.base, dst.size) {
        FixedAddresses(src, dst, n, i);
        assert Answers(bus, src, dst, i);
      }
      assert OnBus(bus, src.At(0), src.size) && OnBus(bus, dst.base, dst.size);
    }
  }

  lemma FixedAddresses(src: Span, dst: Span, n: nat, i: nat)
    requires i < n && dst.step == 0 && src.size > 0 && dst.base < WRAP && src.End(n) <= WRAP
    ensures src.Addr(i) == src.At(i) && dst.Addr(i) == dst.base
  {
    AtIs(dst, i);
    AtAscends(src, i, n - 1);
    NoWrap(src.At(i));
    NoWrap(dst.base);
  }

  lemma {:induction false} MovedToFixed(bus: Bus, src: Span, dst: Span, n: nat)
    requires n > 0 && dst.step == 0 && src.size > 0 && dst.base < WRAP && src.End(n) <= WRAP
    requires src.End(n) <= dst.base || dst.base + dst.size <= src.base
    ensures Moved(bus, src, dst, n) == Given(bus, src, dst, n - 1)
  {
    var i := n - 1;
    var a, d := src.At(i), dst.base;
    FixedAddresses(src, dst, n, i);
    AtAscends(src, 0, i);
    if n > 1 {
      AtAscends(src, i - 1, i);
      MovedToFixed(bus, src, dst, i);
      GivenTwice(bus, d, a, src.size, Resize(Fetch(bus, src.At(i - 1), src.size), dst.size));
    }
  }

  lemma GivenTwice(bus: Bus, d: nat, a: nat, ssize: nat, bs: seq<byte>)
    requires a + ssize <= d || d + |bs| <= a
    ensures MoveOne(Store(bus, d, bs), a, ssize, d, |bs|) == MoveOne(bus, a, ssize, d, |bs|)
  {
    FetchSame(Store(bus, d, bs), bus, a, ssize, d, d + |bs|);
  }

  // ----- In terms of the registers -----------------------------------------------------

  // Where a side with the given base address, increment and width has element i.
  function Elem(base: nat, inc: bool, size: nat, i: nat): nat {
    if inc then base + i * size else base
  }

  function EndOf(base: nat, inc: bool, size: nat, n: nat): nat {
    Elem(base, inc, size, n) + if inc then 0 else size
  }

  // A transfer of n elements between two sides that lie apart, without wrap-around or error.
  ghost predicate Plain(bus: Bus, from: nat, finc: bool, fsize: nat, to: nat, tinc: bool, tsize: nat, n: nat) {
    && n > 0 && EndOf(from, finc, fsize, n) <= WRAP && EndOf(to, tinc, tsize, n) <= WRAP
    && (EndOf(from, finc, fsize, n) <= to || EndOf(to, tinc, tsize, n) <= from)
    && forall i :: 0 <= i < n ==> SideOn(bus, from, finc, fsize, i) && SideOn(bus, to, tinc, tsize, i)
  }

  ghost predicate SideOn(bus: Bus, base: nat, inc: bool, size: nat, i: nat) {
    OnBus(bus, Elem(base, inc, size, i), size)
  }

  // What it leaves: with an incrementing target every element in its place, otherwise the last
  // element; each zero-extended or truncated byte-wise; and every other byte as it was.
  ghost predicate Arrives(bus: Bus, r: Bus,
                          from: nat, finc: bool, fsize: nat, to: nat, tinc: bool, tsize: nat, n: nat)
  {
    && r.Keys == bus.Keys
    && (forall i :: 0 <= i < n && (tinc || i == n - 1) ==>
          Arrived(bus, r, Elem(from, finc, fsize, i), fsize, Elem(to, tinc, tsize, i), tsize))
    && forall x :: x in bus && !(to <= x < EndOf(to, tinc, tsize, n)) ==> r[x] == bus[x]
  }

  ghost predicate Arrived(bus: Bus, r: Bus, from: nat, fsize: nat, to: nat, tsize: nat) {
    forall j :: 0 <= j < tsize ==> ByteArrives(bus, r, from, fsize, to, j)
  }

  ghost predicate ByteArrives(bus: Bus, r: Bus, from: nat, fsize: nat, to: nat, j: nat) {
    to + j in r && (j < fsize ==> from + j in bus) && r[to + j] == if j < fsize then bus[from + j] else 0
  }

  // DIR = 0 moves from the peripheral side, at PADDR, to the memory side, at MADDR; PINC and
  // MINC make a side move on by its width.
  lemma ToMemory(bus: Bus, c: Config, paddr: nat, maddr: nat, n: nat)
    requires c.Valid() && !c.toPeriph && Plain(bus, paddr, c.pinc, c.psize, maddr, c.minc, c.msize, n)
    ensures var src, dst := Source(c, paddr, maddr), Target(c, paddr, maddr);
            && Reach(bus, src, dst, 0, n) == n
            && Arrives(bus, Transferred(bus, src, dst, n), paddr, c.pinc, c.psize, maddr, c.minc, c.msize, n)
  {
    SidesArrive(bus, paddr, c.pinc, c.psize, maddr, c.minc, c.msize, n);
  }

  // DIR = 1 the other way round.
  lemma ToPeripheral(bus: Bus, c: Config, paddr: nat, maddr: nat, n: nat)
    requires c.Valid() && c.toPeriph && Plain(bus, maddr, c.minc, c.msize, paddr, c.pinc, c.psize, n)
    ensures var src, dst := Source(c, paddr, maddr), Target(c, paddr, maddr);
            && Reach(bus, src, dst, 0, n) == n
            && Arrives(bus, Transferred(bus, src, dst, n), maddr, c.minc, c.msize, paddr, c.pinc, c.psize, n)
  {
    SidesArrive(bus, maddr, c.minc, c.msize, paddr, c.pinc, c.psize, n);
  }

  // One side as a span.
  function Side(base: nat, inc: bool, size: nat): Span { Span(base, if inc then size else 0, size) }

  lemma SideIs(base: nat, inc: bool, size: nat, i: nat)
    ensures Side(base, inc, size).At(i) == Elem(base, inc, size, i)
    ensures i > 0 ==> Side(base, inc, size).End(i) == EndOf(base, inc, size, i)
  {
    AtIs(Side(base, inc, size), i);
    if i > 0 {
      AtIs(Side(base, inc, size), i - 1);
      assert i * size == (i - 1) * size + size;
    }
  }

  lemma SidesArrive(bus: Bus, from: nat, finc: bool, fsize: nat, to: nat, tinc: bool, tsize: nat, n: nat)
    requires IsSize(fsize) && IsSize(tsize) && Plain(bus, from, finc, fsize, to, tinc, tsize, n)
    ensures var src, dst := Side(from, finc, fsize), Side(to, tinc, tsize);
            && Reach(bus, src, dst, 0, n) == n
            && Arrives(bus, Transferred(bus, src, dst, n), from, finc, fsize, to, tinc, tsize, n)
  {
    if tinc {
      BlockArrives(bus, from, finc, fsize, to, tsize, n);
    } else {
      LastArrives(bus, from, finc, fsize, to, tsize, n);
    }
  }

  lemma SideAnswers(bus: Bus, from: nat, finc: bool, fsize: nat, to: nat, tinc: bool, tsize: nat, n: nat, i: nat)
    requires IsSize(fsize) && IsSize(tsize) && Plain(bus, from, finc, fsize, to, tinc, tsize, n) && i < n
    ensures Answers(bus, Side(from, finc, fsize), Side(to, tinc, tsize), i)
  {
    SideAt(bus, from, finc, fsize, n, i);
    SideAt(bus, to, tinc, tsize, n, i);
  }

  lemma SideAt(bus: Bus, base: nat, inc: bool, size: nat, n: nat, i: nat)
    requires IsSize(size) && i < n && EndOf(base, inc, size, n) <= WRAP && SideOn(bus, base, inc, size, i)
    ensures var s := Side(base, inc, size);
            && s.Addr(i) == s.At(i) == Elem(base, inc, size, i) && OnBus(bus, s.Addr(i), size)
            && s.End(n) == EndOf(base, inc, size, n)
  {
    SideIs(base, inc, size, i);
    SideIs(base, inc, size, n);
    AtAscends(Side(base, inc, size), i, n - 1);
    NoWrap(Side(base, inc, size).At(i));
  }

  lemma BlockArrives(bus: Bus, from: nat, finc: bool, fsize: nat, to: nat, tsize: nat, n: nat)
    requires IsSize(fsize) && IsSize(tsize) && Plain(bus, from, finc, fsize, to, true, tsize, n)
    ensures var src, dst := Side(from, finc, fsize), Side(to, true, tsize);
            && Reach(bus, src, dst, 0, n) == n
            && Arrives(bus, Transferred(bus, src, dst, n), from, finc, fsize, to, true, tsize, n)
  {
    var src, dst := Side(from, finc, fsize), Side(to, true, tsize);
    SideIs(from, finc, fsize, n);
    SideIs(to, true, tsize, n);
    forall i: nat | i < n ensures Answers(bus, src, dst, i) {
      SideAnswers(bus, from, finc, fsize, to, true, tsize, n, i);
    }
    BlockTransfer(bus, src, dst, n);
    SideIs(to, true, tsize, n);
    CopiedArrives(bus, Transferred(bus, src, dst, n), from, finc, fsize, to, tsize, n);
  }

  lemma CopiedArrives(bus: Bus, r: Bus, from: nat, finc: bool, fsize: nat, to: nat, tsize: nat, n: nat)
    requires n > 0 && CopiedBlock(bus, r, Side(from, finc, fsize), Side(to, true, tsize), n)
    ensures Arrives(bus, r, from, finc, fsize, to, true, tsize, n)
  {
    SideIs(to, true, tsize, n);
    forall i | 0 <= i < n
      ensures Arrived(bus, r, Elem(from, finc, fsize, i), fsize, Elem(to, true, tsize, i), tsize)
    {
      SideIs(from, finc, fsize, i);
      SideIs(to, true, tsize, i);
      forall j | 0 <= j < tsize
        ensures ByteArrives(bus, r, Elem(from, finc, fsize, i), fsize, Elem(to, true, tsize, i), j)
      {
        assert CopiedByte(bus, r, Side(from, finc, fsize), Side(to, true, tsize), i, j);
      }
    }
  }

  lemma LastArrives(bus: Bus, from: nat, finc: bool, fsize: nat, to: nat, tsize: nat, n: nat)
    requires IsSize(fsize) && IsSize(tsize) && Plain(bus, from, finc, fsize, to, false, tsize, n)
    ensures var src, dst := Side(from, finc, fsize), Side(to, false, tsize);
            && Reach(bus, src, dst, 0, n) == n
            && Arrives(bus, Transferred(bus, src, dst, n), from, finc, fsize, to, false, tsize, n)
  {
    var src, dst := Side(from, finc, fsize), Side(to, false, tsize);
    forall i | 0 <= i < n ensures OnBus(bus, src.At(i), src.size) {
      assert SideOn(bus, from, finc, fsize, i);
      SideAt(bus, from, finc, fsize, n, i);
    }
    assert SideOn(bus, to, false, tsize, 0);
    SideIs(from, finc, fsize, n);
    assert to < WRAP && OnBus(bus, to, tsize);
    FixedTargetHoldsLast(bus, src, dst, n);
    SideIs(from, finc, fsize, n - 1);
    GivenArrives(bus, from, finc, fsize, to, tsize, n);
  }

  lemma GivenArrives(bus: Bus, from: nat, finc: bool, fsize: nat, to: nat, tsize: nat, n: nat)
    requires n > 0 && SideOn(bus, from, finc, fsize, n - 1) && OnBus(bus, to, tsize)
    ensures Arrives(bus, Given(bus, Side(from, finc, fsize), Side(to, false, tsize), n - 1),
                    from, finc, fsize, to, false, tsize, n)
  {
    SideIs(from, finc, fsize, n - 1);
    MovedBytes(bus, Elem(from, finc, fsize, n - 1), fsize, to, tsize);
  }

  lemma MovedBytes(bus: Bus, a: nat, fsize: nat, to: nat, tsize: nat)
    requires OnBus(bus, a, fsize) && OnBus(bus, to, tsize)
    ensures Arrived(bus, MoveOne(bus, a, fsize, to, tsize), a, fsize, to, tsize)
  {
    forall j: nat | j < tsize ensures ByteArrives(bus, MoveOne(bus, a, fsize, to, tsize), a, fsize, to, j) {
      StoredAt(bus, to, Resize(Fetch(bus, a, fsize), tsize), j);
      FetchedAt(bus, a, fsize, tsize, j);
    }
  }

  // ----- Values and bytes --------------------------------------------------------------

  // Widening a value read from memory adds zero bytes; narrowing it drops the upper ones.
  lemma {:induction false} ValueResizes(bs: seq<byte>, size: nat)
    ensures ToBytes(LittleEndian(bs), size) == Resize(bs, size)
    decreases size
  {
    if size == 0 {
    } else if bs == [] {
      ValueResizes([], size - 1);
    } else {
      ValueResizes(bs[1..], size - 1);
      assert LittleEndian(bs) % 256 == bs[0] && LittleEndian(bs) / 256 == LittleEndian(bs[1..]);
      assert Resize(bs, size) == [bs[0]] + Resize(bs[1..], size - 1);
    }
  }

  // The casts to 8 and 16 bits.
  lemma CastByte(v: nat)
    ensures ToBytes(v % 0x100, 1) == ToBytes(v, 1)
  {
  }

  lemma CastHalf(v: nat)
    ensures ToBytes(v % 0x1_0000, 2) == ToBytes(v, 2)
  {
    TwoBytes(v);
    TwoBytes(v % 0x1_0000);
    HalfDigits(v);
  }

  lemma TwoBytes(v: nat)
    ensures ToBytes(v, 2) == [v % 256, v / 256 % 256]
  {
  }

  lemma HalfDigits(v: nat)
    ensures v % 0x1_0000 % 256 == v % 256 && v % 0x1_0000 / 256 % 256 == v / 256 % 256
  {
  }
}
