// An Intel HEX writer in the two address dialects, and the proof that the loader inverts
// it.  Section numbers refer to the Intel Hexadecimal Object File Format Specification,
// Revision A (1988).
module HexCodec {
  import opened Arithmetic
  import opened Basics
  import opened HexFormat
  import opened Sequences

  // ----- The writer --------------------------------------------------------------------

  // A digit in either case.
  function DigitChar(v: nat, lower: bool): (c: byte)
    requires v < 16
    ensures Digit(c) == v && !EndOfLine(c)
  {
    if v < 10 then 48 + v else if lower then 87 + v else 55 + v
  }

  function HexText(bs: seq<byte>, lower: seq<bool>): (t: Text)
    requires |lower| == 2 * |bs|
    ensures |t| == 2 * |bs|
  {
    if bs == [] then []
    else [DigitChar(bs[0] / 16, lower[0]), DigitChar(bs[0] % 16, lower[1])] + HexText(bs[1..], lower[2..])
  }

  predicate Encodable(r: Record) {
    r.addr < 0x1_0000 && |r.data| < 256
  }

  // Section 2: length, address, type, data and the two's complement of their sum.
  function Body(r: Record): seq<byte>
    requires Encodable(r)
  {
    [|r.data|, r.addr / 256, r.addr % 256, r.kind] + r.data
  }

  function Checksum(bs: seq<byte>): byte {
    (256 - Sum(bs) % 256) % 256
  }

  function LineOf(r: Record): seq<byte>
    requires Encodable(r)
  {
    Body(r) + [Checksum(Body(r))]
  }

  // How one record is spelled: blanks before it, the case of every digit, and its line end.
  datatype Style = Style(gap: Text, lower: seq<bool>, ending: Text)

  // Tabs, line feeds, carriage returns and spaces.
  predicate Gap(t: Text) {
    forall i :: 0 <= i < |t| ==> t[i] == 9 || t[i] == 10 || t[i] == 13 || t[i] == 32
  }

  predicate LineEnd(t: Text) {
    t == [13, 10] || t == [10] || t == [13]
  }

  predicate Styled(r: Record, st: Style)
    requires Encodable(r)
  {
    Gap(st.gap) && |st.lower| == 2 * |LineOf(r)| && LineEnd(st.ending)
  }

  // A record line without its end.
  function EncodeLine(r: Record, gap: Text, lower: seq<bool>): Text
    requires Encodable(r) && |lower| == 2 * |LineOf(r)|
  {
    gap + ([COLON] + HexText(LineOf(r), lower))
  }

  predicate Writable(rs: seq<Record>, sts: seq<Style>) {
    |sts| == |rs| && forall i :: 0 <= i < |rs| ==> Encodable(rs[i]) && rs[i].kind != 1 && Styled(rs[i], sts[i])
  }

  function EncodeLines(rs: seq<Record>, sts: seq<Style>): Text
    requires Writable(rs, sts)
  {
    if rs == [] then []
    else EncodeLine(rs[0], sts[0].gap, sts[0].lower) + (sts[0].ending + EncodeLines(rs[1..], sts[1..]))
  }

  // Section 8
  const EOF: Record := Record(0, 1, [])

  // How a file ends.
  //   Eof  - with an end-of-file record, its line end and anything else; or with that record
  //          alone, the text ending with it
  //   Bare - without such a record
  datatype Closing = Eof(gap: Text, lower: seq<bool>, ending: Text, tail: Text) | Bare(gap: Text)

  predicate Closed(c: Closing) {
    Gap(c.gap) &&
    match c
    case Eof(_, lower, ending, tail) => |lower| == 10 && (LineEnd(ending) || (ending == [] && tail == []))
    case Bare(_) => true
  }

  function ClosingText(c: Closing): Text
    requires Closed(c)
  {
    match c
    case Eof(gap, lower, ending, tail) => EncodeLine(EOF, gap, lower) + (ending + tail)
    case Bare(gap) => gap
  }

  // A whole file.
  function Encode(rs: seq<Record>, sts: seq<Style>, c: Closing): Text
    requires Writable(rs, sts) && Closed(c)
  {
    EncodeLines(rs, sts) + ClosingText(c)
  }

  // ----- Reading a line back -----------------------------------------------------------

  lemma {:induction false} HexTextReads(s: Text, p: nat, bs: seq<byte>, lower: seq<bool>, rest: Text, n: nat)
    requires |lower| == 2 * |bs|
    requires p <= |s| && s[p..] == HexText(bs, lower) + rest && n + |bs| <= LINE_MAX
    requires rest == [] || EndOfLine(rest[0])
    ensures HexBytes(s, p, n) == Some((bs, p + 2 * |bs|))
    decreases |bs|
  {
    if bs == [] {
      assert s[p..] == rest;
    } else {
      var t := HexText(bs, lower);
      assert s[p] == s[p..][0] == t[0] && s[p + 1] == s[p..][1] == t[1];
      assert s[p + 2..] == s[p..][2..] == HexText(bs[1..], lower[2..]) + rest;
      HexTextReads(s, p + 2, bs[1..], lower[2..], rest, n + 1);
      OneByteReads(s, p, bs[0], lower[0], lower[1], n);
      assert bs == [bs[0]] + bs[1..];
    }
  }

  lemma OneByteReads(s: Text, p: nat, b: byte, low0: bool, low1: bool, n: nat)
    requires p + 2 <= |s| && n < LINE_MAX
    requires s[p] == DigitChar(b / 16, low0) && s[p + 1] == DigitChar(b % 16, low1)
    requires HexBytes(s, p + 2, n + 1).Some?
    ensures var rest := HexBytes(s, p + 2, n + 1).value;
            HexBytes(s, p, n) == Some(([b] + rest.0, rest.1))
  {
  }

  lemma {:induction false} SumConcat(a: seq<byte>, b: seq<byte>)
    ensures Sum(a + b) == Sum(a) + Sum(b)
    decreases |b|
  {
    if b == [] {
      assert a + b == a;
    } else {
      SumConcat(a, b[..|b| - 1]);
      assert (a + b)[..|a + b| - 1] == a + b[..|b| - 1];
    }
  }

  // A line is taken as a record exactly when it is what the writer makes of that record.
  lemma LineIff(line: seq<byte>, r: Record)
    ensures ToRecord(line) == Some(r) <==> Encodable(r) && line == LineOf(r)
  {
    if ToRecord(line) == Some(r) {
      var front, last := line[..|line| - 1], line[|line| - 1];
      assert front == Body(r);
      ChecksumIs(Sum(front), last);
    } else if Encodable(r) && line == LineOf(r) {
      LineReads(r);
    }
  }

  lemma ChecksumIs(sum: nat, c: byte)
    requires (sum + c) % 256 == 0
    ensures c == (256 - sum % 256) % 256
  {
  }

  lemma LineReads(r: Record)
    requires Encodable(r)
    ensures ToRecord(LineOf(r)) == Some(r) && |LineOf(r)| == |r.data| + 5
  {
  }

  // What stands k bytes behind a known suffix.
  lemma SuffixOf(s: Text, p: nat, head: Text, rest: Text)
    requires p <= |s| && s[p..] == head + rest
    ensures p + |head| <= |s| && s[p + |head|..] == rest
    ensures forall i :: 0 <= i < |head| ==> s[p + i] == head[i]
  {
  }

  // The loader's skip passes over blanks.
  lemma {:induction false} GapSkipped(s: Text, p: nat, gap: Text, rest: Text)
    requires p <= |s| && s[p..] == gap + rest && Gap(gap)
    ensures p + |gap| <= |s| && s[p + |gap|..] == rest && SkipBlank(s, p) == SkipBlank(s, p + |gap|)
    decreases |gap|
  {
    SuffixOf(s, p, gap, rest);
    if gap != [] {
      assert s[p + 0] == gap[0];
      assert s[p + 1..] == s[p..][1..] == gap[1..] + rest;
      GapSkipped(s, p + 1, gap[1..], rest);
    }
  }

  // Blanks between records do not matter.
  lemma SameSkip(s: Text, p: nat, q: nat)
    requires p <= |s| && q <= |s| && SkipBlank(s, p) == SkipBlank(s, q)
    ensures Records(s, p) == Records(s, q)
  {
  }

  // A written line behind its colon.
  lemma LineReadsAt(s: Text, q: nat, r: Record, lower: seq<bool>, after: Text)
    requires q <= |s| && Encodable(r) && |lower| == 2 * |LineOf(r)|
    requires s[q..] == HexText(LineOf(r), lower) + after && (after == [] || EndOfLine(after[0]))
    ensures HexBytes(s, q, 0).Some? && ToRecord(HexBytes(s, q, 0).value.0) == Some(r)
    ensures s[HexBytes(s, q, 0).value.1..] == after
  {
    LineReads(r);
    HexTextReads(s, q, LineOf(r), lower, after, 0);
    SuffixOf(s, q, HexText(LineOf(r), lower), after);
  }

  // Where the colon of a written record stands.
  lemma ColonAt(s: Text, p: nat, gap: Text, text: Text, after: Text)
    requires p <= |s| && Gap(gap) && s[p..] == (gap + ([COLON] + text)) + after
    ensures SkipBlank(s, p) == p + |gap| < |s| && s[p + |gap|] == COLON && s[p + |gap| + 1..] == text + after
  {
    var q := p + |gap|;
    ConcatAssociates(gap, [COLON] + text, after);
    GapSkipped(s, p, gap, ([COLON] + text) + after);
    ConcatAssociates([COLON], text, after);
    SuffixOf(s, q, [COLON], text + after);
    assert s[q + 0] == COLON;
  }

  // One written record.
  lemma RecordReads(s: Text, p: nat, r: Record, gap: Text, lower: seq<bool>, after: Text)
    requires p <= |s| && Encodable(r) && |lower| == 2 * |LineOf(r)| && Gap(gap)
    requires s[p..] == EncodeLine(r, gap, lower) + after && (after == [] || EndOfLine(after[0]))
    ensures var q := SkipBlank(s, p);
            && q < |s| && s[q] == COLON && HexBytes(s, q + 1, 0).Some?
            && ToRecord(HexBytes(s, q + 1, 0).value.0) == Some(r)
            && s[HexBytes(s, q + 1, 0).value.1..] == after
  {
    ColonAt(s, p, gap, HexText(LineOf(r), lower), after);
    LineReadsAt(s, p + |gap| + 1, r, lower, after);
  }

  // ----- Reading a file back -----------------------------------------------------------

  // Records, one record at a time.
  lemma RecordsFrom(s: Text, p: nat, q: nat, r: Record)
    requires p <= |s| && q == SkipBlank(s, p) && q < |s| && s[q] == COLON && r.kind != 1
    requires HexBytes(s, q + 1, 0).Some? && ToRecord(HexBytes(s, q + 1, 0).value.0) == Some(r)
    ensures var rest := Records(s, HexBytes(s, q + 1, 0).value.1);
            Records(s, p) == ([r] + rest.0, rest.1)
  {
  }

  // The line end of a record is passed over.
  lemma LineEndSkipped(s: Text, p: nat, ending: Text, after: Text)
    requires p <= |s| && LineEnd(ending) && s[p..] == ending + after
    ensures |after| <= |s| && s[|s| - |after|..] == after
    ensures Records(s, p) == Records(s, |s| - |after|)
  {
    GapSkipped(s, p, ending, after);
    SameSkip(s, p, p + |ending|);
  }

  lemma FirstRead(s: Text, p: nat, r: Record, st: Style, after: Text)
    requires Encodable(r) && r.kind != 1 && Styled(r, st) && p <= |s|
    requires s[p..] == EncodeLine(r, st.gap, st.lower) + (st.ending + after)
    ensures |after| <= |s| && s[|s| - |after|..] == after
    ensures var rest := Records(s, |s| - |after|);
            Records(s, p) == ([r] + rest.0, rest.1)
  {
    var next := LineRead(s, p, r, st, st.ending + after);
    LineEndSkipped(s, next, st.ending, after);
  }

  // Where the first written line has been read.
  lemma LineRead(s: Text, p: nat, r: Record, st: Style, after: Text) returns (next: nat)
    requires Encodable(r) && r.kind != 1 && Styled(r, st) && p <= |s| && st.ending <= after
    requires s[p..] == EncodeLine(r, st.gap, st.lower) + after
    ensures next <= |s| && s[next..] == after
    ensures var rest := Records(s, next);
            Records(s, p) == ([r] + rest.0, rest.1)
  {
    assert after[0] == st.ending[0];
    RecordReads(s, p, r, st.gap, st.lower, after);
    RecordsFrom(s, p, SkipBlank(s, p), r);
    next := HexBytes(s, SkipBlank(s, p) + 1, 0).value.1;
  }

  // However they are spelled, the loader reads exactly the written records, and then what
  // follows them.
  lemma {:induction false} RecordsRead(s: Text, p: nat, rs: seq<Record>, sts: seq<Style>, after: Text)
    requires Writable(rs, sts) && p <= |s| && s[p..] == EncodeLines(rs, sts) + after
    ensures |after| <= |s| && s[|s| - |after|..] == after
    ensures var rest := Records(s, |s| - |after|);
            Records(s, p) == (rs + rest.0, rest.1)
    decreases |rs|
  {
    if rs == [] {
      assert s[p..] == after;
      assert [] + Records(s, p).0 == Records(s, p).0;
    } else {
      var more := EncodeLines(rs[1..], sts[1..]);
      Regroup(EncodeLine(rs[0], sts[0].gap, sts[0].lower), sts[0].ending, more, after);
      FirstRead(s, p, rs[0], sts[0], more + after);
      RecordsRead(s, |s| - |more + after|, rs[1..], sts[1..], after);
      HeadBack(rs, Records(s, |s| - |after|).0);
    }
  }

  lemma Regroup(a: Text, b: Text, c: Text, d: Text)
    ensures (a + (b + c)) + d == a + (b + (c + d))
  {
  }

  lemma HeadBack(rs: seq<Record>, rest: seq<Record>)
    requires rs != []
    ensures [rs[0]] + (rs[1..] + rest) == rs + rest
  {
  }

  // Every way to end a file ends the record stream without an error.
  lemma ClosingReads(s: Text, p: nat, c: Closing)
    requires p <= |s| && Closed(c) && s[p..] == ClosingText(c)
    ensures Records(s, p) == ([], if c.Eof? then EofRecord else EndOfText)
  {
    match c
    case Eof(gap, lower, ending, tail) =>
      RecordReads(s, p, EOF, gap, lower, ending + tail);
    case Bare(gap) =>
      assert s[p..] == gap + [];
      GapSkipped(s, p, gap, []);
  }

  // ----- Images ------------------------------------------------------------------------

  function Flatten(chunks: seq<seq<byte>>): seq<byte> {
    if chunks == [] then [] else chunks[0] + Flatten(chunks[1..])
  }

  predicate Chunked(chunks: seq<seq<byte>>) {
    forall c :: c in chunks ==> 1 <= |c| <= 255
  }

  // Section 3: a type-04 record whenever the upper half of the address changes; hi is the
  // upper half in force, -1 before the first.
  function LinearRecords(chunks: seq<seq<byte>>, off: nat, hi: int): seq<Record>
    requires Chunked(chunks) && FLASH_BASE + off + |Flatten(chunks)| < 0x1_0000_0000
  {
    if chunks == [] then []
    else
      var a := FLASH_BASE + off;
      (if a / 0x1_0000 != hi then [Record(0, 4, [a / 0x100_0000, a / 0x1_0000 % 256])] else []) +
      [Record(a % 0x1_0000, 0, chunks[0])] +
      LinearRecords(chunks[1..], off + |chunks[0]|, a / 0x1_0000)
  }

  // Offsets from 0, with a type-02 record (section 4) whenever the 64 KiB segment changes.  By
  // section 5 this encodes the chunks exactly when none crosses the end of its segment.
  function SegmentRecords(chunks: seq<seq<byte>>, off: nat, segment: nat): seq<Record>
    requires Chunked(chunks) && off + |Flatten(chunks)| <= 0x10_0000
  {
    if chunks == [] then []
    else
      (if off / 0x1_0000 != segment then [Record(0, 2, [16 * (off / 0x1_0000), 0])] else []) +
      [Record(off % 0x1_0000, 0, chunks[0])] +
      SegmentRecords(chunks[1..], off + |chunks[0]|, off / 0x1_0000)
  }

  // Data written into flash from an offset on.
  function Restored(flash: seq<byte>, off: nat, data: seq<byte>): (r: seq<byte>)
    requires off + |data| <= |flash|
    ensures |r| == |flash|
  {
    if data == [] then flash
    else
      var n := |data| - 1;
      Restored(flash, off, data[..n])[off + n := data[n]]
  }

  lemma {:induction false} RestoredIs(flash: seq<byte>, off: nat, data: seq<byte>)
    requires off + |data| <= |flash|
    ensures Restored(flash, off, data) == flash[..off] + data + flash[off + |data|..]
  {
    if data != [] {
      RestoredIs(flash, off, data[..|data| - 1]);
    }
  }

  // The chunks restored one after the other.
  function RestoredInTurn(flash: seq<byte>, off: nat, chunks: seq<seq<byte>>): (r: seq<byte>)
    requires off + |Flatten(chunks)| <= |flash|
    decreases |chunks|
  {
    if chunks == [] then flash
    else RestoredInTurn(Restored(flash, off, chunks[0]), off + |chunks[0]|, chunks[1..])
  }

  lemma {:induction false} RestoredWhole(flash: seq<byte>, off: nat, chunks: seq<seq<byte>>)
    requires off + |Flatten(chunks)| <= |flash|
    ensures RestoredInTurn(flash, off, chunks) == Restored(flash, off, Flatten(chunks))
    decreases |chunks|
  {
    if chunks != [] {
      RestoredWhole(Restored(flash, off, chunks[0]), off + |chunks[0]|, chunks[1..]);
      RestoredTwice(flash, off, chunks[0], Flatten(chunks[1..]));
    }
  }

  lemma {:induction false} RestoredTwice(flash: seq<byte>, off: nat, a: seq<byte>, b: seq<byte>)
    requires off + |a| + |b| <= |flash|
    ensures Restored(Restored(flash, off, a), off + |a|, b) == Restored(flash, off, a + b)
    decreases |b|
  {
    if b == [] {
      assert a + b == a;
    } else {
      var n := |b| - 1;
      RestoredTwice(flash, off, a, b[..n]);
      assert (a + b)[..|a| + n] == a + b[..n];
    }
  }

  // The two halves of an address.
  lemma Halves(a: nat)
    requires a < 0x1_0000_0000
    ensures a / 0x100_0000 < 256
    ensures U16(a / 0x100_0000, a / 0x1_0000 % 256) == a / 0x1_0000
    ensures 0x1_0000 * (a / 0x1_0000) + a % 0x1_0000 == a
  {
  }

  // A data record whose mapped address is off, in either dialect.
  lemma DataApplies(im: Image, addr: nat, off: nat, data: seq<byte>)
    requires off + |data| <= |im.flash| && FLASH_BASE + |im.flash| < 0x1_0000_0000
    requires if im.haveEla then 0x1_0000 * im.ulba + addr == FLASH_BASE + off
             else im.sba + addr == off && off < FLASH_BASE
    ensures Apply(im, Record(addr, 0, data)) == Some(im.(flash := Restored(im.flash, off, data)))
  {
    RestoredIs(im.flash, off, data);
    if off < |im.flash| {
      assert Offset(im, addr) == Some(off);
    } else {
      assert Offset(im, addr) == None;
      assert Restored(im.flash, off, data) == im.flash;
    }
  }

  // The loader's state after the records of a first chunk, and of all chunks.
  function LinearNext(im: Image, c: seq<byte>, off: nat): Image
    requires off + |c| <= |im.flash|
  {
    im.(ulba := (FLASH_BASE + off) / 0x1_0000, haveEla := true, flash := Restored(im.flash, off, c))
  }

  function LinearImage(im: Image, chunks: seq<seq<byte>>, off: nat): (r: Image)
    requires off + |Flatten(chunks)| <= |im.flash|
    ensures r.flash == RestoredInTurn(im.flash, off, chunks)
    decreases |chunks|
  {
    if chunks == [] then im
    else LinearImage(LinearNext(im, chunks[0], off), chunks[1..], off + |chunks[0]|)
  }

  lemma {:induction false} LinearFolds(im: Image, chunks: seq<seq<byte>>, off: nat, hi: int, rs: seq<Record>)
    requires Chunked(chunks) && off + |Flatten(chunks)| <= |im.flash|
    requires FLASH_BASE + |im.flash| < 0x1_0000_0000
    requires hi >= 0 ==> im.haveEla && im.ulba == hi
    requires rs == LinearRecords(chunks, off, hi)
    ensures Fold(im, rs) == (LinearImage(im, chunks, off), true)
    decreases |chunks|
  {
    if chunks != [] {
      var next, upper := LinearNext(im, chunks[0], off), (FLASH_BASE + off) / 0x1_0000;
      var rest := LinearRecords(chunks[1..], off + |chunks[0]|, upper);
      LinearFolds(next, chunks[1..], off + |chunks[0]|, upper, rest);
      LinearFoldsFirst(im, chunks, off, hi, next);
    }
  }

  lemma LinearFoldsFirst(im: Image, chunks: seq<seq<byte>>, off: nat, hi: int, next: Image)
    requires Chunked(chunks) && chunks != [] && off + |Flatten(chunks)| <= |im.flash|
    requires FLASH_BASE + |im.flash| < 0x1_0000_0000
    requires hi >= 0 ==> im.haveEla && im.ulba == hi
    requires next == LinearNext(im, chunks[0], off)
    ensures Fold(im, LinearRecords(chunks, off, hi)) ==
            Fold(next, LinearRecords(chunks[1..], off + |chunks[0]|, (FLASH_BASE + off) / 0x1_0000))
  {
    var a := FLASH_BASE + off;
    LinearFirst(chunks, off, hi);
    LinearStep(im, a, off, chunks[0], hi, LinearRecords(chunks[1..], off + |chunks[0]|, a / 0x1_0000));
  }

  // The records for the first chunk.
  lemma LinearFirst(chunks: seq<seq<byte>>, off: nat, hi: int)
    requires Chunked(chunks) && chunks != [] && FLASH_BASE + off + |Flatten(chunks)| < 0x1_0000_0000
    ensures var a := FLASH_BASE + off;
            var data := Record(a % 0x1_0000, 0, chunks[0]);
            var rest := LinearRecords(chunks[1..], off + |chunks[0]|, a / 0x1_0000);
            LinearRecords(chunks, off, hi) ==
            if a / 0x1_0000 == hi then [data] + rest
            else [Record(0, 4, [a / 0x100_0000, a / 0x1_0000 % 256])] + ([data] + rest)
  {
  }

  // A change of the upper address half, if there is one, and a data record.
  lemma LinearStep(im: Image, a: nat, off: nat, c: seq<byte>, hi: int, rest: seq<Record>)
    requires a == FLASH_BASE + off && off + |c| <= |im.flash| && FLASH_BASE + |im.flash| < 0x1_0000_0000
    requires hi >= 0 ==> im.haveEla && im.ulba == hi
    ensures a / 0x100_0000 < 256
    ensures var next := im.(ulba := a / 0x1_0000, haveEla := true, flash := Restored(im.flash, off, c));
            var data := [Record(a % 0x1_0000, 0, c)] + rest;
            if a / 0x1_0000 == hi then Fold(im, data) == Fold(next, rest)
            else Fold(im, [Record(0, 4, [a / 0x100_0000, a / 0x1_0000 % 256])] + data) == Fold(next, rest)
  {
    var set04 := im.(ulba := a / 0x1_0000, haveEla := true);
    var data := Record(a % 0x1_0000, 0, c);
    Halves(a);
    DataApplies(set04, a % 0x1_0000, off, c);
    FoldCons(set04, data, rest);
    if a / 0x1_0000 != hi {
      var ela := Record(0, 4, [a / 0x100_0000, a / 0x1_0000 % 256]);
      assert Apply(im, ela) == Some(set04);
      FoldCons(im, ela, [data] + rest);
    }
  }

  lemma FoldCons(im: Image, r: Record, rest: seq<Record>)
    requires Apply(im, r).Some?
    ensures Fold(im, [r] + rest) == Fold(Apply(im, r).value, rest)
  {
  }

  function SegmentNext(im: Image, c: seq<byte>, off: nat): Image
    requires off + |c| <= |im.flash|
  {
    im.(sba := 0x1_0000 * (off / 0x1_0000), flash := Restored(im.flash, off, c))
  }

  function SegmentImage(im: Image, chunks: seq<seq<byte>>, off: nat): (r: Image)
    requires off + |Flatten(chunks)| <= |im.flash|
    ensures r.flash == RestoredInTurn(im.flash, off, chunks)
    decreases |chunks|
  {
    if chunks == [] then im
    else SegmentImage(SegmentNext(im, chunks[0], off), chunks[1..], off + |chunks[0]|)
  }

  lemma {:induction false} SegmentFolds(im: Image, chunks: seq<seq<byte>>, off: nat, segment: nat, rs: seq<Record>)
    requires Chunked(chunks) && off + |Flatten(chunks)| <= |im.flash| && off + |Flatten(chunks)| <= 0x10_0000
    requires FLASH_BASE + |im.flash| < 0x1_0000_0000
    requires !im.haveEla && im.sba == 0x1_0000 * segment
    requires rs == SegmentRecords(chunks, off, segment)
    ensures Fold(im, rs) == (SegmentImage(im, chunks, off), true)
    decreases |chunks|
  {
    if chunks != [] {
      var next := SegmentNext(im, chunks[0], off);
      var rest := SegmentRecords(chunks[1..], off + |chunks[0]|, off / 0x1_0000);
      SegmentFolds(next, chunks[1..], off + |chunks[0]|, off / 0x1_0000, rest);
      SegmentFoldsFirst(im, chunks, off, segment, next);
    }
  }

  lemma SegmentFoldsFirst(im: Image, chunks: seq<seq<byte>>, off: nat, segment: nat, next: Image)
    requires Chunked(chunks) && chunks != [] && off + |Flatten(chunks)| <= |im.flash|
    requires off + |Flatten(chunks)| <= 0x10_0000 && FLASH_BASE + |im.flash| < 0x1_0000_0000
    requires !im.haveEla && im.sba == 0x1_0000 * segment
    requires next == SegmentNext(im, chunks[0], off)
    ensures Fold(im, SegmentRecords(chunks, off, segment)) ==
            Fold(next, SegmentRecords(chunks[1..], off + |chunks[0]|, off / 0x1_0000))
  {
    SegmentFirst(chunks, off, segment);
    SegmentStep(im, off, chunks[0], segment, SegmentRecords(chunks[1..], off + |chunks[0]|, off / 0x1_0000));
  }

  lemma SegmentFirst(chunks: seq<seq<byte>>, off: nat, segment: nat)
    requires Chunked(chunks) && chunks != [] && off + |Flatten(chunks)| <= 0x10_0000
    ensures off < 0x10_0000
    ensures var data := Record(off % 0x1_0000, 0, chunks[0]);
            var rest := SegmentRecords(chunks[1..], off + |chunks[0]|, off / 0x1_0000);
            SegmentRecords(chunks, off, segment) ==
            if off / 0x1_0000 == segment then [data] + rest
            else [Record(0, 2, [16 * (off / 0x1_0000), 0])] + ([data] + rest)
  {
  }

  lemma SegmentStep(im: Image, off: nat, c: seq<byte>, segment: nat, rest: seq<Record>)
    requires off + |c| <= |im.flash| && FLASH_BASE + |im.flash| < 0x1_0000_0000 && off < 0x10_0000
    requires !im.haveEla && im.sba == 0x1_0000 * segment
    ensures var next := im.(sba := 0x1_0000 * (off / 0x1_0000), flash := Restored(im.flash, off, c));
            var data := [Record(off % 0x1_0000, 0, c)] + rest;
            if off / 0x1_0000 == segment then Fold(im, data) == Fold(next, rest)
            else Fold(im, [Record(0, 2, [16 * (off / 0x1_0000), 0])] + data) == Fold(next, rest)
  {
    var set02 := im.(sba := 0x1_0000 * (off / 0x1_0000));
    var data := Record(off % 0x1_0000, 0, c);
    Halves(off);
    DataApplies(set02, off % 0x1_0000, off, c);
    FoldCons(set02, data, rest);
    if off / 0x1_0000 != segment {
      var esa := Record(0, 2, [16 * (off / 0x1_0000), 0]);
      assert Apply(im, esa) == Some(set02);
      FoldCons(im, esa, [data] + rest);
    }
  }

  lemma {:induction false} LinearEncodable(chunks: seq<seq<byte>>, off: nat, hi: int)
    requires Chunked(chunks) && FLASH_BASE + off + |Flatten(chunks)| < 0x1_0000_0000
    ensures forall r :: r in LinearRecords(chunks, off, hi) ==> Encodable(r) && r.kind != 1
  {
    if chunks != [] { LinearEncodable(chunks[1..], off + |chunks[0]|, (FLASH_BASE + off) / 0x1_0000); }
  }

  lemma {:induction false} SegmentEncodable(chunks: seq<seq<byte>>, off: nat, segment: nat)
    requires Chunked(chunks) && off + |Flatten(chunks)| <= 0x10_0000
    ensures forall r :: r in SegmentRecords(chunks, off, segment) ==> Encodable(r) && r.kind != 1
  {
    if chunks != [] { SegmentEncodable(chunks[1..], off + |chunks[0]|, off / 0x1_0000); }
  }

  // Loading the written records is folding them, however the file is spelled and ends.
  lemma LoadEncoded(rs: seq<Record>, sts: seq<Style>, c: Closing, im: Image)
    requires Writable(rs, sts) && Closed(c)
    ensures LoadFrom(Encode(rs, sts, c), 0, im) == Fold(im, rs)
  {
    var s, after := Encode(rs, sts, c), ClosingText(c);
    assert s[0..] == EncodeLines(rs, sts) + after;
    RecordsRead(s, 0, rs, sts, after);
    ClosingReads(s, |s| - |after|, c);
    assert rs + [] == rs;
  }

  // Every sequence of encodable records can be written.
  lemma {:induction false} CanBeWritten(rs: seq<Record>) returns (sts: seq<Style>)
    requires forall r :: r in rs ==> Encodable(r) && r.kind != 1
    ensures Writable(rs, sts)
  {
    if rs == [] {
      sts := [];
    } else {
      var rest := CanBeWritten(rs[1..]);
      assert rs[0] in rs;
      sts := [Style([], seq(2 * |LineOf(rs[0])|, i => false), [CR, LF])] + rest;
    }
  }

  // Loading a text restores an image over any flash, and leaves the flash behind it alone.
  ghost predicate Loads(s: Text, image: seq<byte>, flash: seq<byte>, entry: nat)
    requires |image| <= |flash|
  {
    var end := LoadFrom(s, 0, Image(flash, 0, 0, false, entry));
    end.1 && end.0.flash == image + flash[|image|..]
  }

  lemma WholeRestored(flash: seq<byte>, chunks: seq<seq<byte>>)
    requires |Flatten(chunks)| <= |flash|
    ensures RestoredInTurn(flash, 0, chunks) == Flatten(chunks) + flash[|Flatten(chunks)|..]
  {
    RestoredWhole(flash, 0, chunks);
    RestoredIs(flash, 0, Flatten(chunks));
    assert flash[..0] + Flatten(chunks) == Flatten(chunks);
  }

  lemma LinearLoads(chunks: seq<seq<byte>>, sts: seq<Style>, c: Closing, flash: seq<byte>, entry: nat)
    requires Chunked(chunks) && |Flatten(chunks)| <= |flash| && FLASH_BASE + |flash| < 0x1_0000_0000 && Closed(c)
    requires Writable(LinearRecords(chunks, 0, -1), sts)
    ensures Loads(Encode(LinearRecords(chunks, 0, -1), sts, c), Flatten(chunks), flash, entry)
  {
    var start := Image(flash, 0, 0, false, entry);
    WholeRestored(flash, chunks);
    LoadEncoded(LinearRecords(chunks, 0, -1), sts, c, start);
    LinearFolds(start, chunks, 0, -1, LinearRecords(chunks, 0, -1));
  }

  lemma SegmentLoads(chunks: seq<seq<byte>>, sts: seq<Style>, c: Closing, flash: seq<byte>, entry: nat)
    requires Chunked(chunks) && |Flatten(chunks)| <= |flash| && FLASH_BASE + |flash| < 0x1_0000_0000 && Closed(c)
    requires |Flatten(chunks)| <= 0x10_0000 && Writable(SegmentRecords(chunks, 0, 0), sts)
    ensures Loads(Encode(SegmentRecords(chunks, 0, 0), sts, c), Flatten(chunks), flash, entry)
  {
    var start := Image(flash, 0, 0, false, entry);
    WholeRestored(flash, chunks);
    LoadEncoded(SegmentRecords(chunks, 0, 0), sts, c, start);
    SegmentFolds(start, chunks, 0, 0, SegmentRecords(chunks, 0, 0));
  }

  // Both dialects, for every image, every way of cutting it into records, and every way of
  // spelling them: loading the written text restores the image and leaves the flash behind it
  // alone.
  lemma RoundTrip(chunks: seq<seq<byte>>, linear: seq<Style>, segmented: seq<Style>, c: Closing,
                  flash: seq<byte>, entry: nat)
    requires Chunked(chunks) && |Flatten(chunks)| <= |flash| && FLASH_BASE + |flash| < 0x1_0000_0000 && Closed(c)
    requires Writable(LinearRecords(chunks, 0, -1), linear)
    requires |Flatten(chunks)| <= 0x10_0000 ==> Writable(SegmentRecords(chunks, 0, 0), segmented)
    ensures Loads(Encode(LinearRecords(chunks, 0, -1), linear, c), Flatten(chunks), flash, entry)
    ensures |Flatten(chunks)| <= 0x10_0000 ==>
              Loads(Encode(SegmentRecords(chunks, 0, 0), segmented, c), Flatten(chunks), flash, entry)
  {
    LinearLoads(chunks, linear, c, flash, entry);
    if |Flatten(chunks)| <= 0x10_0000 { SegmentLoads(chunks, segmented, c, flash, entry); }
  }

  // Every chunking can be written in both dialects.
  lemma ChunksCanBeWritten(chunks: seq<seq<byte>>) returns (linear: seq<Style>, segmented: seq<Style>)
    requires Chunked(chunks) && FLASH_BASE + |Flatten(chunks)| < 0x1_0000_0000
    ensures Writable(LinearRecords(chunks, 0, -1), linear)
    ensures |Flatten(chunks)| <= 0x10_0000 ==> Writable(SegmentRecords(chunks, 0, 0), segmented)
  {
    LinearEncodable(chunks, 0, -1);
    linear := CanBeWritten(LinearRecords(chunks, 0, -1));
    segmented := [];
    if |Flatten(chunks)| <= 0x10_0000 {
      SegmentEncodable(chunks, 0, 0);
      segmented := CanBeWritten(SegmentRecords(chunks, 0, 0));
    }
  }

  // ----- Beyond the image --------------------------------------------------------------

  // Start address record, type 05.
  function EntryRecord(e: nat): Record
    requires e < 0x1_0000_0000
  {
    Record(0, 5, [e / 0x100_0000, e / 0x1_0000 % 256, e / 0x100 % 256, e % 256])
  }

  // An entry record behind any other records yields its entry, and the same flash.
  lemma EntryLoaded(rs: seq<Record>, e: nat, sts: seq<Style>, c: Closing, im: Image)
    requires e < 0x1_0000_0000 && Fold(im, rs).1
    requires Writable(rs + [EntryRecord(e)], sts) && Closed(c)
    ensures LoadFrom(Encode(rs + [EntryRecord(e)], sts, c), 0, im) == (Fold(im, rs).0.(entry := e), true)
  {
    LoadEncoded(rs + [EntryRecord(e)], sts, c, im);
    FoldConcat(im, rs, [EntryRecord(e)]);
    EntryApplies(Fold(im, rs).0, e);
  }

  lemma EntryApplies(im: Image, e: nat)
    requires e < 0x1_0000_0000
    ensures Fold(im, [EntryRecord(e)]) == (im.(entry := e), true)
  {
    EntryBytes(e);
    assert [EntryRecord(e)][1..] == [];
  }

  lemma EntryBytes(e: nat)
    requires e < 0x1_0000_0000
    ensures U32(e / 0x100_0000, e / 0x1_0000 % 256, e / 0x100 % 256, e % 256) == e
  {
    var a, b, c := e / 0x100, e / 0x100 / 0x100, e / 0x100 / 0x100 / 0x100;
    DivisionIs(e, 0x1_0000, b, a % 0x100 * 0x100 + e % 0x100);
    DivisionIs(e, 0x100_0000, c, b % 0x100 * 0x1_0000 + a % 0x100 * 0x100 + e % 0x100);
  }

  // A line with exactly one wrong byte is never taken.
  lemma DamagedLineRejected(line: seq<byte>, i: nat, b: byte)
    requires ToRecord(line).Some? && i < |line| && b != line[i]
    ensures ToRecord(line[i := b]) == None
  {
    SumUpdated(line, i, b);
    assert (Sum(line) - line[i] + b) % 256 != 0;
  }

  lemma {:induction false} SumUpdated(line: seq<byte>, i: nat, b: byte)
    requires i < |line|
    ensures Sum(line[i := b]) == Sum(line) - line[i] + b
    decreases |line|
  {
    var n := |line| - 1;
    if i == n {
      assert line[i := b][..n] == line[..n];
    } else {
      SumUpdated(line[..n], i, b);
      assert line[i := b][..n] == line[..n][i := b];
    }
  }

  // ----- What is accepted --------------------------------------------------------------

  // The text of some bytes, in some spelling, ended by a line end or the end of the text.
  ghost predicate Spells(s: Text, p: nat, e: nat, bs: seq<byte>) {
    && p <= e <= |s| && (e == |s| || s[e] == 13 || s[e] == 10)
    && exists lower: seq<bool> :: |lower| == 2 * |bs| && s[p..e] == HexText(bs, lower)
  }

  // A line is read as these bytes exactly when it spells them and they fit into the buffer.
  lemma LineTextIff(s: Text, p: nat, e: nat, bs: seq<byte>)
    requires p <= |s|
    ensures HexBytes(s, p, 0) == Some((bs, e)) <==> Spells(s, p, e, bs) && |bs| <= 512
  {
    if HexBytes(s, p, 0) == Some((bs, e)) {
      var lower := ReadSpells(s, p, 0);
    } else if Spells(s, p, e, bs) && |bs| <= LINE_MAX {
      var lower: seq<bool> :| |lower| == 2 * |bs| && s[p..e] == HexText(bs, lower);
      assert s[p..] == s[p..e] + s[e..];
      HexTextReads(s, p, bs, lower, s[e..], 0);
    }
  }

  lemma {:induction false} ReadSpells(s: Text, p: nat, n: nat) returns (lower: seq<bool>)
    requires p <= |s| && HexBytes(s, p, n).Some?
    ensures var (bs, e) := HexBytes(s, p, n).value;
            && e <= |s| && (e == |s| || s[e] == 13 || s[e] == 10)
            && |lower| == 2 * |bs| && p + 2 * |bs| == e && s[p..e] == HexText(bs, lower)
    decreases |s| - p
  {
    var (bs, e) := HexBytes(s, p, n).value;
    if bs == [] {
      lower := [];
    } else {
      var rest := ReadSpells(s, p + 2, n + 1);
      lower := [s[p] >= 97, s[p + 1] >= 97] + rest;
      SpelledDigit(s[p]);
      SpelledDigit(s[p + 1]);
      assert lower[2..] == rest && s[p..e] == [s[p], s[p + 1]] + s[p + 2..e];
    }
  }

  lemma SpelledDigit(c: byte)
    requires Digit(c) >= 0
    ensures Digit(c) < 16 && DigitChar(Digit(c), c >= 97) == c
  {
  }

  // Behind any lines a character that starts no record stops the load, and keeps what was
  // loaded.
  lemma StrayStopsLoad(rs: seq<Record>, sts: seq<Style>, stray: byte, tail: Text, im: Image)
    requires Writable(rs, sts) && stray != COLON && !Gap([stray])
    ensures LoadFrom(EncodeLines(rs, sts) + ([stray] + tail), 0, im) == (Fold(im, rs).0, false)
  {
    var after := [stray] + tail;
    var s := EncodeLines(rs, sts) + after;
    assert s[0..] == s;
    RecordsRead(s, 0, rs, sts, after);
    var q := |s| - |after|;
    assert s[q] == s[q..][0] == stray && [stray][0] == stray;
    assert Records(s, q) == ([], Malformed);
    assert rs + [] == rs;
  }

  // Records of any other type are passed over.
  lemma OtherTypesIgnored(im: Image, rs: seq<Record>, r: Record, more: seq<Record>)
    requires r.kind == 3 || r.kind > 5
    ensures Fold(im, rs + ([r] + more)) == Fold(im, rs + more)
  {
    FoldConcat(im, rs, [r] + more);
    FoldConcat(im, rs, more);
  }

  // Only an address record of the wrong length is rejected.
  lemma RejectedIff(im: Image, r: Record)
    ensures Apply(im, r) == None <==>
            (r.kind == 2 && |r.data| != 2) || (r.kind == 4 && |r.data| != 2) || (r.kind == 5 && |r.data| != 4)
  {
  }

  // Where a record starts: under type-04 addressing inside flash at its base address only,
  // otherwise also at offset 0.
  lemma OffsetIff(im: Image, addr: nat, off: nat)
    requires FLASH_BASE + |im.flash| < 0x1_0000_0000 && |im.flash| <= FLASH_BASE
    ensures Offset(im, addr) == Some(off) <==>
            off < |im.flash| &&
            if im.haveEla then 0x1_0000 * im.ulba + addr == FLASH_BASE + off
            else im.sba + addr == FLASH_BASE + off || im.sba + addr == off
  {
  }

  // A type-02 record sets the segment base to 16 times its value, a type-04 record the upper
  // half of the address, and neither touches flash; where data then goes is OffsetIff.
  lemma BaseRecords(im: Image, hi: byte, lo: byte)
    ensures Apply(im, Record(0, 2, [hi, lo])) == Some(im.(sba := 0x1000 * hi + 0x10 * lo))
    ensures Apply(im, Record(0, 4, [hi, lo])) == Some(im.(ulba := 0x100 * hi + lo, haveEla := true))
  {
  }
}
