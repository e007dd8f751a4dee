// Intel HEX as the loader reads it: text to records, and the fold of records over flash.
module HexFormat {
  import opened Basics

  type Text = seq<byte>

  const LINE_MAX: nat := 512      // bytes the loader's line buffer holds
  const CR: byte := 13
  const LF: byte := 10
  const COLON: byte := 58

  // Big-endian fields.
  function U16(hi: nat, lo: nat): nat { 0x100 * hi + lo }

  function U32(b0: nat, b1: nat, b2: nat, b3: nat): nat {
    0x100_0000 * b0 + 0x1_0000 * b1 + 0x100 * b2 + b3
  }

  // ----- Text --------------------------------------------------------------------------

  predicate EndOfLine(c: byte) { c == CR || c == LF }

  predicate Blank(c: byte) { c == CR || c == LF || c == 32 || c == 9 }

  // g_ascii_xdigit_value
  function Digit(c: byte): int {
    if 48 <= c <= 57 then c - 48
    else if 65 <= c <= 70 then c - 55
    else if 97 <= c <= 102 then c - 87
    else -1
  }

  function SkipBlank(s: Text, p: nat): (q: nat)
    requires p <= |s|
    ensures p <= q <= |s|
    decreases |s| - p
  {
    if p < |s| && Blank(s[p]) then SkipBlank(s, p + 1) else p
  }

  // The bytes of a line from p on, when n have been read before, and where the line ends.
  function HexBytes(s: Text, p: nat, n: nat): (r: Option<(seq<byte>, nat)>)
    requires p <= |s|
    ensures r.Some? ==> p <= r.value.1 <= |s| && n + |r.value.0| <= if n <= LINE_MAX then LINE_MAX else n
    decreases |s| - p
  {
    if p == |s| || EndOfLine(s[p]) then Some(([], p))
    else if p + 1 == |s| || EndOfLine(s[p + 1]) then None
    else if Digit(s[p]) < 0 || Digit(s[p + 1]) < 0 then None
    else if n >= LINE_MAX then None
    else
      match HexBytes(s, p + 2, n + 1)
      case None => None
      case Some(rest) => Some(([16 * Digit(s[p]) + Digit(s[p + 1])] + rest.0, rest.1))
  }

  // ----- Records -----------------------------------------------------------------------

  datatype Record = Record(addr: nat, kind: byte, data: seq<byte>)

  function Sum(bs: seq<byte>): nat {
    if bs == [] then 0 else Sum(bs[..|bs| - 1]) + bs[|bs| - 1]
  }

  function ToRecord(line: seq<byte>): Option<Record> {
    if |line| < 5 || Sum(line) % 256 != 0 || |line| - 5 != line[0] then None
    else Some(LineRecord(line))
  }

  // LL AAAA TT data CC
  function LineRecord(line: seq<byte>): Record
    requires |line| >= 5
  {
    Record(U16(line[1], line[2]), line[3], line[4..|line| - 1])
  }

  // How the record stream of a text ends.
  datatype End = EofRecord | EndOfText | Malformed

  function Records(s: Text, p: nat): (seq<Record>, End)
    requires p <= |s|
    decreases |s| - p
  {
    var q := SkipBlank(s, p);
    if q == |s| then ([], EndOfText)
    else if s[q] != COLON then ([], Malformed)
    else
      match HexBytes(s, q + 1, 0)
      case None => ([], Malformed)
      case Some(line) =>
        match ToRecord(line.0)
        case None => ([], Malformed)
        case Some(r) =>
          if r.kind == 1 then ([], EofRecord)
          else
            var rest := Records(s, line.1);
            ([r] + rest.0, rest.1)
  }

  // ----- The fold ----------------------------------------------------------------------

  datatype Image = Image(flash: seq<byte>, ulba: nat, sba: nat, haveEla: bool, entry: nat)

  // Where a data record starts in flash, if it is inside one of the two windows.
  function Offset(im: Image, addr: nat): (off: Option<nat>)
    ensures off.Some? ==> off.value < |im.flash|
  {
    var a := if im.haveEla then 0x1_0000 * im.ulba + addr else im.sba + addr;
    if FLASH_BASE <= a < (FLASH_BASE + |im.flash|) % 0x1_0000_0000 then Some(a - FLASH_BASE)
    else if !im.haveEla && a < |im.flash| then Some(a)
    else None
  }

  // Data at an offset, cut off at the end of flash.
  function Place(flash: seq<byte>, off: nat, data: seq<byte>): seq<byte>
    requires off <= |flash|
  {
    if off + |data| <= |flash| then flash[..off] + data + flash[off + |data|..]
    else flash[..off] + data[..|flash| - off]
  }

  // Some address records have a fixed length; a wrong one stops the load.
  function Apply(im: Image, r: Record): Option<Image> {
    if r.kind == 0 then
      match Offset(im, r.addr)
      case None => Some(im)
      case Some(off) => Some(im.(flash := Place(im.flash, off, r.data)))
    else if r.kind == 2 then
      if |r.data| != 2 then None
      else Some(im.(sba := 16 * U16(r.data[0], r.data[1])))
    else if r.kind == 4 then
      if |r.data| != 2 then None
      else Some(im.(ulba := U16(r.data[0], r.data[1]), haveEla := true))
    else if r.kind == 5 then
      if |r.data| != 4 then None
      else Some(im.(entry := U32(r.data[0], r.data[1], r.data[2], r.data[3])))
    else Some(im)
  }

  // The records applied in order up to the first that is rejected; whether all were taken.
  function Fold(im: Image, rs: seq<Record>): (Image, bool)
    decreases |rs|
  {
    if rs == [] then (im, true)
    else
      match Apply(im, rs[0])
      case None => (im, false)
      case Some(next) => Fold(next, rs[1..])
  }

  // The load from text position p on: parse, then fold.
  function LoadFrom(s: Text, p: nat, im: Image): (Image, bool)
    requires p <= |s|
  {
    var (rs, end) := Records(s, p);
    var (result, taken) := Fold(im, rs);
    (result, taken && end != Malformed)
  }

  // What flash holds after a data record: the record's bytes where it covers flash, and
  // what was there before everywhere else; its size never changes.
  lemma PlaceBytes(flash: seq<byte>, off: nat, data: seq<byte>)
    requires off <= |flash|
    ensures |Place(flash, off, data)| == |flash|
    ensures forall i :: 0 <= i < |flash| ==>
              Place(flash, off, data)[i] == if off <= i < off + |data| then data[i - off] else flash[i]
  {
  }

  lemma {:induction false} FoldKeepsSize(im: Image, rs: seq<Record>)
    ensures |Fold(im, rs).0.flash| == |im.flash|
    decreases |rs|
  {
    if rs != [] && Apply(im, rs[0]).Some? {
      ApplyKeepsSize(im, rs[0]);
      FoldKeepsSize(Apply(im, rs[0]).value, rs[1..]);
    }
  }

  lemma ApplyKeepsSize(im: Image, r: Record)
    ensures Apply(im, r).Some? ==> |Apply(im, r).value.flash| == |im.flash|
  {
  }

  lemma {:induction false} FoldConcat(im: Image, rs: seq<Record>, more: seq<Record>)
    ensures Fold(im, rs + more) == if Fold(im, rs).1 then Fold(Fold(im, rs).0, more) else Fold(im, rs)
    decreases |rs|
  {
    if rs == [] {
      assert rs + more == more;
    } else {
      assert (rs + more)[0] == rs[0] && (rs + more)[1..] == rs[1..] + more;
      if Apply(im, rs[0]).Some? { FoldConcat(Apply(im, rs[0]).value, rs[1..], more); }
    }
  }
}
