// ch32_load_hex_image: one pass over the text, writing flash as the records go by.
module HexLoader {
  import opened Basics
  import opened HexFormat

  // One line, from behind its colon, into the line buffer.
  method ReadLine(s: Text, start: nat, buf: array<byte>) returns (ok: bool, n: nat, p: nat)
    requires start <= |s| && buf.Length == LINE_MAX
    modifies buf
    ensures ok <==> HexBytes(s, start, 0).Some?
    ensures ok ==> n <= buf.Length && HexBytes(s, start, 0) == Some((buf[..n], p))
  {
    p, n := start, 0;
    BehindNothing(HexBytes(s, start, 0));
    while p < |s| && !EndOfLine(s[p])
      invariant start <= p <= |s| && n <= LINE_MAX
      invariant HexBytes(s, start, 0) == Behind(buf[..n], HexBytes(s, p, n))
    {
      var hi := s[p];
      p := p + 1;
      if p >= |s| || EndOfLine(s[p]) { return false, n, p; }
      var lo := s[p];
      p := p + 1;
      if Digit(hi) < 0 || Digit(lo) < 0 { return false, n, p; }
      if n >= buf.Length { return false, n, p; }
      BehindOne(buf[..n], 16 * Digit(hi) + Digit(lo), HexBytes(s, p, n + 1));
      ghost var before := buf[..n];
      buf[n] := 16 * Digit(hi) + Digit(lo);
      n := n + 1;
      assert buf[..n] == before + [buf[n - 1]];
    }
    assert buf[..n] + [] == buf[..n];
    ok := true;
  }

  // A parse result with bytes already read put in front.
  ghost function Behind(front: seq<byte>, r: Option<(seq<byte>, nat)>): Option<(seq<byte>, nat)> {
    match r
    case None => None
    case Some(rest) => Some((front + rest.0, rest.1))
  }

  lemma BehindNothing(r: Option<(seq<byte>, nat)>)
    ensures Behind([], r) == r
  {
    if r.Some? { assert [] + r.value.0 == r.value.0; }
  }

  lemma BehindOne(front: seq<byte>, b: byte, r: Option<(seq<byte>, nat)>)
    ensures Behind(front, Behind([b], r)) == Behind(front + [b], r)
  {
    if r.Some? { assert front + ([b] + r.value.0) == (front + [b]) + r.value.0; }
  }

  // The checksum byte sum, modulo 256 as in an 8-bit variable.
  method ByteSum(buf: array<byte>, n: nat) returns (sum: byte)
    requires n <= buf.Length
    ensures sum == Sum(buf[..n]) % 256
  {
    sum := 0;
    for i := 0 to n
      invariant sum == Sum(buf[..i]) % 256
    {
      assert buf[..i + 1][..i] == buf[..i];
      sum := (sum + buf[i]) % 256;
    }
  }

  // Copies a data record, cut off at the end of flash.
  method CopyRecord(flash: array<byte>, off: nat, buf: array<byte>, len: nat)
    requires off < flash.Length && 4 + len <= buf.Length && flash != buf
    modifies flash
    ensures flash[..] == Place(old(flash[..]), off, buf[4..4 + len])
  {
    var count := if off + len > flash.Length then flash.Length - off else len;
    for i := 0 to count
      invariant forall j :: 0 <= j < flash.Length ==>
                  flash[j] == if off <= j < off + i then buf[4 + j - off] else old(flash[j])
    {
      flash[off + i] := buf[4 + i];
    }
    PlaceBytes(old(flash[..]), off, buf[4..4 + len]);
  }

  // A data record of the given length, mapped and copied, or skipped.
  method WriteData(flash: array<byte>, buf: array<byte>, len: nat, addr: nat,
                   ulba: nat, sba: nat, haveEla: bool, ghost entry: nat)
    requires 4 + len <= buf.Length && flash != buf
    modifies flash
    ensures var im := Image(old(flash[..]), ulba, sba, haveEla, entry);
            flash[..] == match Offset(im, addr)
                         case None => im.flash
                         case Some(off) => Place(im.flash, off, old(buf[4..4 + len]))
  {
    var a := if haveEla then 0x1_0000 * ulba + addr else sba + addr;
    if FLASH_BASE <= a < (FLASH_BASE + flash.Length) % 0x1_0000_0000 {
      CopyRecord(flash, a - FLASH_BASE, buf, len);
    } else if !haveEla && a < flash.Length {
      CopyRecord(flash, a, buf, len);
    }
  }

  // One record of n line bytes, with everything but its type already checked.
  method ApplyRecord(flash: array<byte>, buf: array<byte>, n: nat, ulbaIn: nat, sbaIn: nat, elaIn: bool, entryIn: nat)
    returns (ok: bool, ulba: nat, sba: nat, haveEla: bool, entry: nat)
    requires 5 <= n <= buf.Length && flash != buf
    modifies flash
    ensures var r := Apply(Image(old(flash[..]), ulbaIn, sbaIn, elaIn, entryIn), LineRecord(old(buf[..n])));
            if ok then r == Some(Image(flash[..], ulba, sba, haveEla, entry))
            else r == None && flash[..] == old(flash[..]) && haveEla == elaIn && entry == entryIn
  {
    ok, ulba, sba, haveEla, entry := true, ulbaIn, sbaIn, elaIn, entryIn;
    var addr, kind := U16(buf[1], buf[2]), buf[3];
    assert buf[..n][4..n - 1] == buf[4..4 + (n - 5)];
    if kind == 0 {
      WriteData(flash, buf, n - 5, addr, ulba, sba, haveEla, entry);
    } else if kind == 2 {
      if n - 5 != 2 { ok := false; return; }
      sba := 16 * U16(buf[4], buf[5]);
    } else if kind == 4 {
      if n - 5 != 2 { ok := false; return; }
      ulba := U16(buf[4], buf[5]);
      haveEla := true;
    } else if kind == 5 {
      if n - 5 != 4 { ok := false; return; }
      entry := U32(buf[4], buf[5], buf[6], buf[7]);
    }
  }

  method LoadHexImage(s: Text, flash: array<byte>, entryIn: nat)
    returns (ok: bool, entry: nat, haveEla: bool)
    modifies flash
    ensures var (im, done) := LoadFrom(s, 0, Image(old(flash[..]), 0, 0, false, entryIn));
            ok == done && flash[..] == im.flash && entry == im.entry && haveEla == im.haveEla
  {
    var buf := new byte[LINE_MAX];
    var ulba, sba := 0, 0;
    haveEla, entry := false, entryIn;
    var p := 0;
    ghost var start := Image(flash[..], 0, 0, false, entryIn);
    while p < |s|
      invariant p <= |s| && fresh(buf) && buf.Length == LINE_MAX
      invariant LoadFrom(s, 0, start) == LoadFrom(s, p, Image(flash[..], ulba, sba, haveEla, entry))
      decreases |s| - p
    {
      ghost var before := Image(flash[..], ulba, sba, haveEla, entry);
      p := SkipBlanks(s, p);
      if p == |s| { break; }
      if s[p] != COLON { return false, entry, haveEla; }
      var lineOk, n, next := ReadLine(s, p + 1, buf);
      if !lineOk || n < 5 { return false, entry, haveEla; }
      var sum := ByteSum(buf, n);
      if sum != 0 { return false, entry, haveEla; }
      if n - 5 != buf[0] as int { return false, entry, haveEla; }
      if buf[3] == 1 { return true, entry, haveEla; }
      FoldFirst(before, LineRecord(buf[..n]), Records(s, next).0);
      var applied;
      applied, ulba, sba, haveEla, entry := ApplyRecord(flash, buf, n, ulba, sba, haveEla, entry);
      if !applied { return false, entry, haveEla; }
      p := next;
    }
    ok := true;
  }

  method SkipBlanks(s: Text, start: nat) returns (p: nat)
    requires start <= |s|
    ensures p == SkipBlank(s, start)
  {
    p := start;
    while p < |s| && Blank(s[p])
      invariant start <= p <= |s|
      invariant SkipBlank(s, start) == SkipBlank(s, p)
    {
      p := p + 1;
    }
  }

  lemma FoldFirst(im: Image, r: Record, rest: seq<Record>)
    ensures Fold(im, [r] + rest) ==
            match Apply(im, r)
            case None => (im, false)
            case Some(next) => Fold(next, rest)
  {
  }
}
