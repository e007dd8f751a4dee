// Data records under type-02 addressing as section 5 of the Intel Hexadecimal Object File
// Format Specification, Revision A, has them, and where the loader departs from it.
module HexSegments {
  import opened Basics
  import opened HexCodec
  import opened HexFormat

  const SEGMENT: nat := 0x1_0000

  // Section 5: byte i of a record goes to the segment's base plus (offset + i) mod 64 KiB,
  // here if flash reaches so far.
  function StandardPlace(flash: seq<byte>, sba: nat, addr: nat, data: seq<byte>): (r: seq<byte>)
    ensures |r| == |flash|
  {
    if data == [] then flash
    else
      var n := |data| - 1;
      var front := StandardPlace(flash, sba, addr, data[..n]);
      var a := sba + (addr + n) % SEGMENT;
      if a < |front| then front[a := data[n]] else front
  }

  // A record inside its segment lands in one piece.
  lemma {:induction false} InsideSegment(flash: seq<byte>, sba: nat, addr: nat, data: seq<byte>)
    requires addr + |data| <= SEGMENT
    ensures forall i :: 0 <= i < |flash| ==>
              StandardPlace(flash, sba, addr, data)[i] ==
              if sba + addr <= i < sba + addr + |data| then data[i - (sba + addr)] else flash[i]
  {
    if data != [] {
      var n := |data| - 1;
      InsideSegment(flash, sba, addr, data[..n]);
      assert (addr + n) % SEGMENT == addr + n;
    }
  }

  // Nothing outside the segment is touched.
  lemma {:induction false} OutsideSegment(flash: seq<byte>, sba: nat, addr: nat, data: seq<byte>, p: nat)
    requires p < |flash| && (p < sba || sba + SEGMENT <= p)
    ensures StandardPlace(flash, sba, addr, data)[p] == flash[p]
  {
    if data != [] { OutsideSegment(flash, sba, addr, data[..|data| - 1], p); }
  }

  // A record that crosses the end of its segment goes on at its start.
  lemma {:induction false} WrapsToStart(flash: seq<byte>, sba: nat, addr: nat, data: seq<byte>)
    requires addr < SEGMENT < addr + |data| && |data| <= SEGMENT && sba < |flash|
    ensures StandardPlace(flash, sba, addr, data)[sba] == data[SEGMENT - addr]
  {
    var n := |data| - 1;
    if addr + n > SEGMENT {
      WrapsToStart(flash, sba, addr, data[..n]);
      assert (addr + n) % SEGMENT == addr + n - SEGMENT;
    }
  }

  // ----- One record --------------------------------------------------------------------

  ghost predicate Agrees(im: Image, addr: nat, data: seq<byte>) {
    Apply(im, Record(addr, 0, data)) == Some(im.(flash := StandardPlace(im.flash, im.sba, addr, data)))
  }

  // Under type-02 addressing the loader places a record as section 5 does, whatever flash
  // holds, exactly when the record stays inside its segment or the segment lies behind flash.
  lemma RecordAgreesIff(im: Image, addr: nat, data: seq<byte>)
    requires !im.haveEla && im.sba <= 0xF_FFF0 && addr < SEGMENT && |data| < 256
    ensures (forall flash: seq<byte> :: |flash| == |im.flash| ==> Agrees(im.(flash := flash), addr, data)) <==>
            addr + |data| <= SEGMENT || im.sba >= |im.flash|
  {
    if addr + |data| <= SEGMENT || im.sba >= |im.flash| {
      forall flash: seq<byte> | |flash| == |im.flash| ensures Agrees(im.(flash := flash), addr, data) {
        RecordAgrees(im.(flash := flash), addr, data);
      }
    } else {
      var other: byte := if data[SEGMENT - addr] == 0 then 1 else 0;
      var flash := im.flash[im.sba := other];
      WrapsToStart(flash, im.sba, addr, data);
      if im.sba + addr < |flash| { PlaceBytes(flash, im.sba + addr, data); }
      assert !Agrees(im.(flash := flash), addr, data);
    }
  }

  lemma RecordAgrees(im: Image, addr: nat, data: seq<byte>)
    requires !im.haveEla && im.sba <= 0xF_FFF0 && addr < SEGMENT
    requires addr + |data| <= SEGMENT || im.sba >= |im.flash|
    ensures Agrees(im, addr, data)
  {
    if im.sba >= |im.flash| {
      BehindFlash(im.flash, im.sba, addr, data);
    } else {
      InsideSegment(im.flash, im.sba, addr, data);
      if im.sba + addr < |im.flash| { PlaceBytes(im.flash, im.sba + addr, data); }
      assert Apply(im, Record(addr, 0, data)).value.flash == StandardPlace(im.flash, im.sba, addr, data);
    }
  }

  lemma {:induction false} BehindFlash(flash: seq<byte>, sba: nat, addr: nat, data: seq<byte>)
    requires sba >= |flash|
    ensures StandardPlace(flash, sba, addr, data) == flash
  {
    if data != [] { BehindFlash(flash, sba, addr, data[..|data| - 1]); }
  }

  // Two bytes at offset 0xFFFF: the loader writes the second one behind the segment, section 5
  // has it at the segment's start.
  lemma CrossingRecord(im: Image)
    requires !im.haveEla && im.sba == 0 && im.flash == seq(0x1_0001, i => 0)
    ensures var loaded, meant := Apply(im, Record(0xFFFF, 0, [1, 2])), StandardPlace(im.flash, 0, 0xFFFF, [1, 2]);
            && loaded.Some? && loaded.value.flash[0] == 0 && loaded.value.flash[0x1_0000] == 2
            && meant[0] == 2 && meant[0x1_0000] == 0
  {
    PlaceBytes(im.flash, 0xFFFF, [1, 2]);
    WrapsToStart(im.flash, 0, 0xFFFF, [1, 2]);
    OutsideSegment(im.flash, 0, 0xFFFF, [1, 2], 0x1_0000);
  }

  // ----- Whole files -------------------------------------------------------------------

  // The fold with section 5 in place of the loader's placement.
  function StandardApply(im: Image, r: Record): Option<Image> {
    if r.kind == 0 && !im.haveEla then Some(im.(flash := StandardPlace(im.flash, im.sba, r.addr, r.data)))
    else Apply(im, r)
  }

  function StandardFold(im: Image, rs: seq<Record>): (Image, bool)
    decreases |rs|
  {
    if rs == [] then (im, true)
    else
      match StandardApply(im, rs[0])
      case None => (im, false)
      case Some(next) => StandardFold(next, rs[1..])
  }

  predicate Inside(rs: seq<Record>) {
    forall r :: r in rs && r.kind == 0 ==> r.addr + |r.data| <= SEGMENT
  }

  // Files without a crossing record load as section 5 has them.
  lemma {:induction false} FoldsAgree(im: Image, rs: seq<Record>)
    requires Inside(rs) && im.sba <= 0xF_FFF0 && forall r :: r in rs ==> r.addr < SEGMENT
    ensures Fold(im, rs) == StandardFold(im, rs)
    decreases |rs|
  {
    if rs != [] {
      if rs[0].kind == 0 && !im.haveEla { RecordAgrees(im, rs[0].addr, rs[0].data); }
      assert Apply(im, rs[0]) == StandardApply(im, rs[0]);
      if Apply(im, rs[0]).Some? { FoldsAgree(Apply(im, rs[0]).value, rs[1..]); }
    }
  }

  // Every chunk ends in the segment in which it begins.
  predicate Uncrossed(chunks: seq<seq<byte>>, off: nat) {
    chunks == [] ||
    (off % SEGMENT + |chunks[0]| <= SEGMENT && Uncrossed(chunks[1..], off + |chunks[0]|))
  }

  // The chunks placed one after the other, each as section 5 has it.
  function PlacedInTurn(flash: seq<byte>, off: nat, chunks: seq<seq<byte>>): (r: seq<byte>)
    ensures |r| == |flash|
    decreases |chunks|
  {
    if chunks == [] then flash
    else PlacedInTurn(PlacedFirst(flash, off, chunks[0]), off + |chunks[0]|, chunks[1..])
  }

  function PlacedFirst(flash: seq<byte>, off: nat, chunk: seq<byte>): (r: seq<byte>)
    ensures |r| == |flash|
  {
    StandardPlace(flash, SEGMENT * (off / SEGMENT), off % SEGMENT, chunk)
  }

  lemma {:induction false} SegmentsFold(im: Image, chunks: seq<seq<byte>>, off: nat, segment: nat, rs: seq<Record>)
    requires Chunked(chunks) && off + |Flatten(chunks)| <= 0x10_0000
    requires !im.haveEla && im.sba == SEGMENT * segment
    requires rs == SegmentRecords(chunks, off, segment)
    ensures StandardFold(im, rs).1 && StandardFold(im, rs).0.flash == PlacedInTurn(im.flash, off, chunks)
    decreases |chunks|
  {
    if chunks != [] {
      var next := im.(sba := SEGMENT * (off / SEGMENT), flash := PlacedFirst(im.flash, off, chunks[0]));
      var rest := SegmentRecords(chunks[1..], off + |chunks[0]|, off / SEGMENT);
      SegmentsFold(next, chunks[1..], off + |chunks[0]|, off / SEGMENT, rest);
      SegmentFirst(chunks, off, segment);
      SegmentPlaces(im, off, chunks[0], segment, rest);
    }
  }

  lemma SegmentPlaces(im: Image, off: nat, c: seq<byte>, segment: nat, rest: seq<Record>)
    requires off < 0x10_0000 && !im.haveEla && im.sba == SEGMENT * segment
    ensures var next := im.(sba := SEGMENT * (off / SEGMENT), flash := PlacedFirst(im.flash, off, c));
            var data := [Record(off % SEGMENT, 0, c)] + rest;
            if off / SEGMENT == segment then StandardFold(im, data) == StandardFold(next, rest)
            else StandardFold(im, [Record(0, 2, [16 * (off / SEGMENT), 0])] + data) == StandardFold(next, rest)
  {
    var set02 := im.(sba := SEGMENT * (off / SEGMENT));
    var data := Record(off % SEGMENT, 0, c);
    StandardCons(set02, data, rest);
    if off / SEGMENT != segment {
      var esa := Record(0, 2, [16 * (off / SEGMENT), 0]);
      assert StandardApply(im, esa) == Some(set02);
      StandardCons(im, esa, [data] + rest);
    }
  }

  lemma StandardCons(im: Image, r: Record, rest: seq<Record>)
    requires StandardApply(im, r).Some?
    ensures StandardFold(im, [r] + rest) == StandardFold(StandardApply(im, r).value, rest)
  {
  }

  // Chunks inside their segments are restored.
  lemma FirstRestored(flash: seq<byte>, off: nat, chunk: seq<byte>)
    requires off + |chunk| <= |flash| && off % SEGMENT + |chunk| <= SEGMENT
    ensures PlacedFirst(flash, off, chunk) == Restored(flash, off, chunk)
  {
    InsideSegment(flash, SEGMENT * (off / SEGMENT), off % SEGMENT, chunk);
    RestoredIs(flash, off, chunk);
  }

  lemma {:induction false} UncrossedRestored(flash: seq<byte>, off: nat, chunks: seq<seq<byte>>)
    requires off + |Flatten(chunks)| <= |flash| && Uncrossed(chunks, off)
    ensures PlacedInTurn(flash, off, chunks) == Restored(flash, off, Flatten(chunks))
    decreases |chunks|
  {
    if chunks != [] {
      FirstRestored(flash, off, chunks[0]);
      UncrossedRestored(Restored(flash, off, chunks[0]), off + |chunks[0]|, chunks[1..]);
      RestoredTwice(flash, off, chunks[0], Flatten(chunks[1..]));
    }
  }

  // The first byte behind the last boundary that is crossed.
  function Lost(chunks: seq<seq<byte>>, off: nat): (p: nat)
    requires !Uncrossed(chunks, off)
    ensures off <= p < off + |Flatten(chunks)|
  {
    if !Uncrossed(chunks[1..], off + |chunks[0]|) then Lost(chunks[1..], off + |chunks[0]|)
    else SEGMENT * (off / SEGMENT) + SEGMENT
  }

  // No record of the file reaches it.
  lemma {:induction false} LostUntouched(flash: seq<byte>, off: nat, chunks: seq<seq<byte>>)
    requires !Uncrossed(chunks, off) && off + |Flatten(chunks)| <= |flash|
    ensures PlacedInTurn(flash, off, chunks)[Lost(chunks, off)] == flash[Lost(chunks, off)]
    decreases |chunks|
  {
    var p, next := Lost(chunks, off), off + |chunks[0]|;
    var first := PlacedFirst(flash, off, chunks[0]);
    if Uncrossed(chunks[1..], next) {
      UncrossedRestored(first, next, chunks[1..]);
      RestoredIs(first, next, Flatten(chunks[1..]));
    } else {
      LostUntouched(first, next, chunks[1..]);
    }
    FirstUntouched(flash, off, chunks[0], p);
  }

  lemma FirstUntouched(flash: seq<byte>, off: nat, chunk: seq<byte>, p: nat)
    requires p < |flash|
    requires if off % SEGMENT + |chunk| <= SEGMENT then p >= off + |chunk|
             else p >= SEGMENT * (off / SEGMENT) + SEGMENT
    ensures PlacedFirst(flash, off, chunk)[p] == flash[p]
  {
    if off % SEGMENT + |chunk| <= SEGMENT {
      InsideSegment(flash, SEGMENT * (off / SEGMENT), off % SEGMENT, chunk);
    } else {
      OutsideSegment(flash, SEGMENT * (off / SEGMENT), off % SEGMENT, chunk, p);
    }
  }

  // Read by section 5, a file restores this image over this flash.
  ghost predicate Restores(rs: seq<Record>, image: seq<byte>, flash: seq<byte>, entry: nat)
    requires |image| <= |flash|
  {
    var end := StandardFold(Image(flash, 0, 0, false, entry), rs);
    end.1 && end.0.flash == image + flash[|image|..]
  }

  // The segmented text that the loader reads back is an encoding of the image by section 5,
  // over every flash, exactly when no chunk crosses a 64 KiB boundary.
  lemma SegmentsEncodeIff(chunks: seq<seq<byte>>, size: nat, entry: nat)
    requires Chunked(chunks) && |Flatten(chunks)| <= size && |Flatten(chunks)| <= 0x10_0000
    ensures (forall flash: seq<byte> :: |flash| == size ==>
               Restores(SegmentRecords(chunks, 0, 0), Flatten(chunks), flash, entry)) <==> Uncrossed(chunks, 0)
  {
    if Uncrossed(chunks, 0) {
      forall flash: seq<byte> | |flash| == size
        ensures Restores(SegmentRecords(chunks, 0, 0), Flatten(chunks), flash, entry)
      {
        UncrossedEncodes(chunks, flash, entry);
      }
    } else {
      var other: byte := if Flatten(chunks)[Lost(chunks, 0)] == 0 then 1 else 0;
      CrossedEncodesNot(chunks, seq<byte>(size, i => other), entry);
    }
  }

  lemma UncrossedEncodes(chunks: seq<seq<byte>>, flash: seq<byte>, entry: nat)
    requires Chunked(chunks) && |Flatten(chunks)| <= |flash| && |Flatten(chunks)| <= 0x10_0000
    requires Uncrossed(chunks, 0)
    ensures Restores(SegmentRecords(chunks, 0, 0), Flatten(chunks), flash, entry)
  {
    SegmentsFold(Image(flash, 0, 0, false, entry), chunks, 0, 0, SegmentRecords(chunks, 0, 0));
    UncrossedRestored(flash, 0, chunks);
    RestoredIs(flash, 0, Flatten(chunks));
    assert flash[..0] + Flatten(chunks) == Flatten(chunks);
  }

  lemma CrossedEncodesNot(chunks: seq<seq<byte>>, flash: seq<byte>, entry: nat)
    requires Chunked(chunks) && |Flatten(chunks)| <= |flash| && |Flatten(chunks)| <= 0x10_0000
    requires !Uncrossed(chunks, 0) && flash[Lost(chunks, 0)] != Flatten(chunks)[Lost(chunks, 0)]
    ensures !Restores(SegmentRecords(chunks, 0, 0), Flatten(chunks), flash, entry)
  {
    SegmentsFold(Image(flash, 0, 0, false, entry), chunks, 0, 0, SegmentRecords(chunks, 0, 0));
    LostUntouched(flash, 0, chunks);
  }
}
