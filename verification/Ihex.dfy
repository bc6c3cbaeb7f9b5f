// Reading Intel HEX text and merging its records into download segments
// (parse_ihex of fxload).
module Ihex {
  import opened Common
  import opened CText

  type Addr16 = a: int | 0 <= a < 0x1_0000

  /** Consecutive bytes at a 16-bit address: one data record, or one merged segment. */
  datatype Block = Block(addr: Addr16, data: seq<Byte>)

  /** Size of the buffer in which records are merged. */
  const MAX_SEGMENT := 1023

  // ---------------------------------------------------------------------
  // One line of the file
  // ---------------------------------------------------------------------

  datatype Line =
    | Comment
    | EndRecord
    | Malformed(code: int)
    | Data(record: Block)

  /** The value of a hexadecimal digit, or 16 for any other character. */
  function HexDigit(c: char): (v: nat)
    ensures v <= 16
  {
    if '0' <= c <= '9' then c as int - '0' as int
    else if 'a' <= c <= 'f' then c as int - 'a' as int + 10
    else if 'A' <= c <= 'F' then c as int - 'A' as int + 10
    else 16
  }

  /** The number at the start of s when the digits read so far make up `acc`; like strtoul in
      base 16 it stops at the first character that is not a digit. */
  function HexFrom(s: string, acc: nat): nat
    decreases s
  {
    if s == [] || HexDigit(s[0]) == 16 then acc
    else HexFrom(s[1..], 16 * acc + HexDigit(s[0]))
  }

  /** The characters of s from lo up to hi, as far as s reaches. */
  function Field(s: string, lo: nat, hi: nat): (f: string)
    requires lo <= hi
    ensures |f| <= hi - lo
  {
    if |s| <= lo then "" else if |s| <= hi then s[lo..] else s[lo..hi]
  }

  lemma {:induction false} HexFromBound(s: string, acc: nat)
    ensures |s| == 0 ==> HexFrom(s, acc) == acc
    ensures |s| == 1 ==> HexFrom(s, acc) <= 16 * acc + 15
    ensures |s| == 2 ==> HexFrom(s, acc) <= 256 * acc + 255
    ensures |s| == 3 ==> HexFrom(s, acc) <= 4096 * acc + 4095
    ensures |s| == 4 ==> HexFrom(s, acc) <= 65536 * acc + 65535
    decreases s
  {
    if s != [] && HexDigit(s[0]) != 16 {
      HexFromBound(s[1..], 16 * acc + HexDigit(s[0]));
    }
  }

  function Hex8(s: string): Byte
    requires |s| <= 2
  {
    HexFromBound(s, 0);
    HexFrom(s, 0)
  }

  function Hex16(s: string): Addr16
    requires |s| <= 4
  {
    HexFromBound(s, 0);
    HexFrom(s, 0)
  }

  /** What one call of fgets leaves in the line buffer, without its newline. */
  function ParseLine(s: string): Line {
    if s != [] && s[0] == '#' then Comment
    else if s == [] || s[0] != ':' then Malformed(-2)
    else
      var len := Hex8(Field(s, 1, 3));
      var off := Hex16(Field(s, 3, 7));
      var kind := Hex8(Field(s, 7, 9));
      if kind == 1 then EndRecord
      else if kind != 0 then Malformed(-3)
      else if len * 2 + 11 > |s| then Malformed(-4)
      else Data(Block(off, seq(len, i requires 0 <= i < len => Hex8(s[9 + 2 * i..11 + 2 * i]))))
  }

  // ---------------------------------------------------------------------
  // The text form of a record, and reading it back
  // ---------------------------------------------------------------------

  function Digit(v: nat): (c: char)
    requires v < 16
    ensures HexDigit(c) == v
  {
    "0123456789ABCDEF"[v]
  }

  function Print8(b: Byte): string {
    [Digit(b / 16), Digit(b % 16)]
  }

  function Print16(a: Addr16): string {
    Print8(a / 256) + Print8(a % 256)
  }

  function PrintBytes(data: seq<Byte>): (s: string)
    ensures |s| == 2 * |data|
  {
    if data == [] then "" else PrintBytes(data[..|data| - 1]) + Print8(data[|data| - 1])
  }

  /** The data record for r, whatever checksum byte closes it. */
  function PrintRecord(r: Block, checksum: Byte): string
    requires |r.data| < 256
  {
    ":" + Print8(|r.data|) + Print16(r.addr) + "00" + PrintBytes(r.data) + Print8(checksum)
  }

  lemma {:induction false} HexOfPrint8(b: Byte, rest: string, acc: nat)
    ensures HexFrom(Print8(b) + rest, acc) == HexFrom(rest, 256 * acc + b)
  {
    var s := Print8(b) + rest;
    assert s[1..] == [Digit(b % 16)] + rest && s[1..][1..] == rest;
    assert HexFrom(s[1..], 16 * acc + b / 16) == HexFrom(rest, 16 * (16 * acc + b / 16) + b % 16);
  }

  lemma {:induction false} Hex8OfPrint8(b: Byte)
    ensures Hex8(Print8(b)) == b
  {
    HexOfPrint8(b, "", 0);
    assert Print8(b) + "" == Print8(b);
  }

  lemma {:induction false} Hex16OfPrint16(a: Addr16)
    ensures Hex16(Print16(a)) == a
  {
    HexOfPrint8(a / 256, Print8(a % 256), 0);
    HexOfPrint8(a % 256, "", a / 256);
    assert Print8(a % 256) + "" == Print8(a % 256);
  }

  lemma {:induction false} PrintBytesAt(data: seq<Byte>, i: nat)
    requires i < |data|
    ensures PrintBytes(data)[2 * i..2 * i + 2] == Print8(data[i])
  {
    var n := |data| - 1;
    var front := PrintBytes(data[..n]);
    if i < n {
      PrintBytesAt(data[..n], i);
      assert PrintBytes(data)[2 * i..2 * i + 2] == front[2 * i..2 * i + 2];
    } else {
      assert PrintBytes(data)[2 * i..2 * i + 2] == Print8(data[i]);
    }
  }

  lemma {:induction false} PrintedFields(r: Block, checksum: Byte)
    requires |r.data| < 256
    ensures var s := PrintRecord(r, checksum);
            && |s| == 11 + 2 * |r.data| && s[0] == ':'
            && Field(s, 1, 3) == Print8(|r.data|) && Field(s, 3, 7) == Print16(r.addr) && Field(s, 7, 9) == Print8(0)
            && s[9..9 + 2 * |r.data|] == PrintBytes(r.data)
  {
    var s := PrintRecord(r, checksum);
    assert s[1..3] == Print8(|r.data|);
    assert s[3..7] == Print16(r.addr);
    assert s[7..9] == "00";
  }

  lemma {:induction false} SliceOfSlice(s: string, lo: nat, hi: nat, from: nat, to: nat)
    requires lo <= hi <= |s| && from <= to <= hi - lo
    ensures s[lo..hi][from..to] == s[lo + from..lo + to]
  {
    var a, b := s[lo..hi][from..to], s[lo + from..lo + to];
    assert |a| == |b| && forall k :: 0 <= k < |a| ==> a[k] == b[k];
  }

  lemma {:induction false} PrintedByte(s: string, data: seq<Byte>, i: nat)
    requires i < |data| && 9 + 2 * |data| <= |s| && s[9..9 + 2 * |data|] == PrintBytes(data)
    ensures Hex8(s[9 + 2 * i..11 + 2 * i]) == data[i]
  {
    PrintBytesAt(data, i);
    SliceOfSlice(s, 9, 9 + 2 * |data|, 2 * i, 2 * i + 2);
    Hex8OfPrint8(data[i]);
  }

  /** Reading a printed record gives the record back, for every address, payload and checksum. */
  lemma {:induction false} ParseOfPrint(r: Block, checksum: Byte)
    requires |r.data| < 256
    ensures ParseLine(PrintRecord(r, checksum)) == Data(r)
  {
    var s := PrintRecord(r, checksum);
    PrintedFields(r, checksum);
    Hex8OfPrint8(|r.data|);
    Hex16OfPrint16(r.addr);
    Hex8OfPrint8(0);
    forall i | 0 <= i < |r.data|
      ensures Hex8(s[9 + 2 * i..11 + 2 * i]) == r.data[i]
    {
      PrintedByte(s, r.data, i);
    }
    assert ParseLine(s).record.data == r.data;
  }

  // ---------------------------------------------------------------------
  // The whole file
  // ---------------------------------------------------------------------

  /** Size of the line buffer; fgets fills at most one character less. */
  const LINE_BUFFER := 512

  /** The contents of the line buffer, call after call: a longer line comes in pieces. */
  function Gets(text: string): seq<string>
    decreases |text|
  {
    if text == "" then []
    else
      var (got, rest) := Fgets(text, LINE_BUFFER - 1);
      [Until(got, "\n").0] + Gets(rest)
  }

  lemma {:induction false} GetsLine(line: string, rest: string)
    requires Avoids(line, "\n") && |line| < LINE_BUFFER - 1
    ensures Gets(line + "\n" + rest) == [line] + Gets(rest)
  {
    FgetsLine(line, rest, LINE_BUFFER - 1);
    UntilAt(line, "\n", "\n");
  }

  lemma {:induction false} GetsPiece(line: string, rest: string)
    requires Avoids(line, "\n") && |line| >= LINE_BUFFER - 1
    ensures var n := LINE_BUFFER - 1;
            Gets(line + "\n" + rest) == [line[..n]] + Gets(line[n..] + "\n" + rest)
  {
    var n, text := LINE_BUFFER - 1, line + "\n" + rest;
    assert text == line + ("\n" + rest);
    UntilAt(line, "\n" + rest, "\n");
    assert text[..n] == line[..n] && text[n..] == line[n..] + "\n" + rest;
    assert line[..n] + "" == line[..n];
    UntilAt(line[..n], "", "\n");
  }

  datatype Ending = AtEndRecord | AtEndOfInput | BadLine(code: int)

  /** The data records before the line that ends the scan, and how it ended. */
  function Scan(lines: seq<string>): (r: (seq<Block>, Ending))
    ensures forall k :: 0 <= k < |r.0| ==> |r.0[k].data| < 256
  {
    if lines == [] then ([], AtEndOfInput)
    else
      match ParseLine(lines[0])
      case Comment => Scan(lines[1..])
      case EndRecord => ([], AtEndRecord)
      case Malformed(code) => ([], BadLine(code))
      case Data(record) =>
        var (records, ending) := Scan(lines[1..]);
        ([record] + records, ending)
  }

  lemma {:induction false} ScanCodesNegative(lines: seq<string>)
    ensures Scan(lines).1.BadLine? ==> Scan(lines).1.code < 0
  {
    if lines != [] && (ParseLine(lines[0]).Comment? || ParseLine(lines[0]).Data?) {
      ScanCodesNegative(lines[1..]);
    }
  }

  // ---------------------------------------------------------------------
  // Merging
  // ---------------------------------------------------------------------

  /** The merge buffer (data_addr, data[..data_len]) and the segments passed to poke so far. */
  datatype Merger = Merger(addr: Addr16, buf: seq<Byte>, out: seq<Block>)

  predicate Flushes(m: Merger, r: Block) {
    m.buf != [] && (r.addr != m.addr + |m.buf| || |m.buf| + |r.data| > MAX_SEGMENT)
  }

  function Feed(m: Merger, r: Block): Merger {
    if Flushes(m, r) then Merger(r.addr, r.data, m.out + [Block(m.addr, m.buf)])
    else m.(buf := m.buf + r.data)
  }

  function FeedAll(m: Merger, rs: seq<Block>): Merger {
    if rs == [] then m else Feed(FeedAll(m, rs[..|rs| - 1]), rs[|rs| - 1])
  }

  /** The first record sets the address of the empty buffer. */
  function Start(rs: seq<Block>): Merger {
    Merger(if rs == [] then 0 else rs[0].addr, [], [])
  }

  function Drain(m: Merger): seq<Block> {
    if m.buf == [] then m.out else m.out + [Block(m.addr, m.buf)]
  }

  /** All segments of a file whose records are rs. */
  function Merge(rs: seq<Block>): seq<Block> {
    Drain(FeedAll(Start(rs), rs))
  }

  /** The segments parse_ihex passes to poke when no call fails: a bad line ends the scan
      without flushing the buffer. */
  function Segments(lines: seq<string>): seq<Block> {
    var (rs, ending) := Scan(lines);
    if ending.BadLine? then FeedAll(Start(rs), rs).out else Merge(rs)
  }

  // ---------------------------------------------------------------------
  // What blocks mean: a stream of addressed bytes
  // ---------------------------------------------------------------------

  ghost function Placed(addr: int, data: seq<Byte>): seq<(int, Byte)> {
    seq(|data|, i requires 0 <= i < |data| => (addr + i, data[i]))
  }

  ghost function Stream(bs: seq<Block>): seq<(int, Byte)> {
    if bs == [] then []
    else Stream(bs[..|bs| - 1]) + Placed(bs[|bs| - 1].addr, bs[|bs| - 1].data)
  }

  lemma {:induction false} StreamSnoc(bs: seq<Block>, b: Block)
    ensures Stream(bs + [b]) == Stream(bs) + Placed(b.addr, b.data)
  {
    assert (bs + [b])[..|bs|] == bs;
  }

  /** Where the bytes of r go when it is merged into m. */
  function Landing(m: Merger, r: Block): int {
    if Flushes(m, r) then r.addr else m.addr + |m.buf|
  }

  lemma {:induction false} DrainedStream(m: Merger)
    ensures Stream(Drain(m)) == Stream(m.out) + Placed(m.addr, m.buf)
  {
    if m.buf == [] {
      assert Placed(m.addr, m.buf) == [];
    } else {
      StreamSnoc(m.out, Block(m.addr, m.buf));
    }
  }

  lemma {:induction false} PlacedConcat(addr: int, a: seq<Byte>, b: seq<Byte>)
    ensures Placed(addr, a + b) == Placed(addr, a) + Placed(addr + |a|, b)
  {}

  lemma {:induction false} FlushAppends(m: Merger, r: Block)
    requires Flushes(m, r)
    ensures Stream(Drain(Feed(m, r))) == Stream(Drain(m)) + Placed(r.addr, r.data)
  {
    DrainedStream(Feed(m, r));
  }

  lemma {:induction false} JoinAppends(m: Merger, r: Block)
    requires !Flushes(m, r)
    ensures Stream(Drain(Feed(m, r))) == Stream(Drain(m)) + Placed(m.addr + |m.buf|, r.data)
  {
    DrainedStream(m);
    DrainedStream(Feed(m, r));
    PlacedConcat(m.addr, m.buf, r.data);
    Regroup(Stream(m.out), Placed(m.addr, m.buf), Placed(m.addr + |m.buf|, r.data));
  }

  /** Merging never loses, repeats or reorders bytes; it can only misplace them. */
  lemma {:induction false} FeedAppends(m: Merger, r: Block)
    ensures Stream(Drain(Feed(m, r))) == Stream(Drain(m)) + Placed(Landing(m, r), r.data)
  {
    if Flushes(m, r) {
      FlushAppends(m, r);
    } else {
      JoinAppends(m, r);
    }
  }

  // ---------------------------------------------------------------------
  // The shape of the segments
  // ---------------------------------------------------------------------

  /** How many bytes blocks hold. */
  ghost function Total(bs: seq<Block>): nat {
    if bs == [] then 0 else Total(bs[..|bs| - 1]) + |bs[|bs| - 1].data|
  }

  lemma {:induction false} TotalSnoc(bs: seq<Block>, b: Block)
    ensures Total(bs + [b]) == Total(bs) + |b.data|
  {
    assert (bs + [b])[..|bs|] == bs;
  }

  /** Segment s had to end before one at address next: that is not adjacent, or the record at the seam,
      the one behind the first `at` bytes of the file, would have overflowed the buffer. */
  ghost predicate MustSplit(s: Block, next: int, rs: seq<Block>, at: nat) {
    s.addr + |s.data| != next || exists j: nat :: SeamRecord(s, next, rs, at, j)
  }

  ghost predicate SeamRecord(s: Block, next: int, rs: seq<Block>, at: nat, j: nat) {
    j < |rs| && Total(rs[..j]) == at && rs[j].addr == next && |s.data| + |rs[j].data| > MAX_SEGMENT
  }

  predicate ShortRecords(rs: seq<Block>) {
    forall j :: 0 <= j < |rs| ==> |rs[j].data| < 256
  }

  ghost predicate WellCut(segs: seq<Block>, rs: seq<Block>) {
    && (forall k :: 0 <= k < |segs| ==> 1 <= |segs[k].data| <= MAX_SEGMENT)
    && (forall k :: 0 <= k < |segs| - 1 ==> MustSplit(segs[k], segs[k + 1].addr, rs, Total(segs[..k + 1])))
  }

  lemma {:induction false} MustSplitGrows(s: Block, next: int, rs: seq<Block>, at: nat, n: nat)
    requires n <= |rs| && MustSplit(s, next, rs[..n], at)
    ensures MustSplit(s, next, rs, at)
  {
    if s.addr + |s.data| == next {
      var j: nat :| SeamRecord(s, next, rs[..n], at, j);
      assert rs[..n][..j] == rs[..j];
      assert SeamRecord(s, next, rs, at, j);
    }
  }

  /** Merging keeps the number of bytes. */
  lemma {:induction false} FeedTotal(m: Merger, r: Block)
    ensures Total(Feed(m, r).out) + |Feed(m, r).buf| == Total(m.out) + |m.buf| + |r.data|
  {
    if Flushes(m, r) { TotalSnoc(m.out, Block(m.addr, m.buf)); }
  }

  /** The merger's state after some records: its segments are well cut, the last one before the buffer
      included, and nothing is missing. */
  ghost predicate MergerCut(m: Merger, rs: seq<Block>) {
    && WellCut(m.out, rs) && |m.buf| <= MAX_SEGMENT
    && Total(m.out) + |m.buf| == Total(rs)
    && (m.out != [] ==> MustSplit(m.out[|m.out| - 1], m.addr, rs, Total(m.out)))
  }

  lemma {:induction false} MergerCutGrows(m: Merger, rs: seq<Block>, n: nat)
    requires n <= |rs| && MergerCut(m, rs[..n])
    ensures WellCut(m.out, rs)
    ensures m.out != [] ==> MustSplit(m.out[|m.out| - 1], m.addr, rs, Total(m.out))
  {
    forall k | 0 <= k < |m.out| - 1
      ensures MustSplit(m.out[k], m.out[k + 1].addr, rs, Total(m.out[..k + 1]))
    {
      MustSplitGrows(m.out[k], m.out[k + 1].addr, rs, Total(m.out[..k + 1]), n);
    }
    if m.out != [] { MustSplitGrows(m.out[|m.out| - 1], m.addr, rs, Total(m.out), n); }
  }

  lemma {:induction false} WellCutSnoc(segs: seq<Block>, b: Block, rs: seq<Block>)
    requires WellCut(segs, rs) && 1 <= |b.data| <= MAX_SEGMENT
    requires segs != [] ==> MustSplit(segs[|segs| - 1], b.addr, rs, Total(segs))
    ensures WellCut(segs + [b], rs)
  {
    var all := segs + [b];
    forall k | 0 <= k < |all| - 1
      ensures MustSplit(all[k], all[k + 1].addr, rs, Total(all[..k + 1]))
    {
      assert all[..k + 1] == segs[..k + 1];
      if k == |segs| - 1 { assert segs[..k + 1] == segs; }
    }
  }

  lemma {:induction false} MergerWellCut(rs: seq<Block>, m0: Merger)
    requires ShortRecords(rs) && m0.buf == [] && m0.out == []
    ensures MergerCut(FeedAll(m0, rs), rs)
    decreases |rs|
  {
    if rs != [] {
      var n := |rs| - 1;
      MergerWellCut(rs[..n], m0);
      var p := FeedAll(m0, rs[..n]);
      FeedTotal(p, rs[n]);
      MergerCutGrows(p, rs, n);
      if Flushes(p, rs[n]) {
        WellCutSnoc(p.out, Block(p.addr, p.buf), rs);
        TotalSnoc(p.out, Block(p.addr, p.buf));
        assert p.addr + |p.buf| == rs[n].addr ==> SeamRecord(Block(p.addr, p.buf), rs[n].addr, rs, Total(rs[..n]), n);
      }
    }
  }

  /** Every segment has 1 to 1023 bytes, and neighbours that could have been one segment are two
      only because the record at the seam did not fit. */
  lemma {:induction false} MergeWellCut(rs: seq<Block>)
    requires ShortRecords(rs)
    ensures WellCut(Merge(rs), rs)
  {
    MergerWellCut(rs, Start(rs));
    var m := FeedAll(Start(rs), rs);
    if m.buf != [] { WellCutSnoc(m.out, Block(m.addr, m.buf), rs); }
  }

  lemma {:induction false} SegmentsInRange(lines: seq<string>)
    ensures forall k :: 0 <= k < |Segments(lines)| ==> 1 <= |Segments(lines)[k].data| <= MAX_SEGMENT
  {
    var (rs, ending) := Scan(lines);
    MergerWellCut(rs, Start(rs));
    MergeWellCut(rs);
  }

  // ---------------------------------------------------------------------
  // When merging keeps the meaning of the file
  // ---------------------------------------------------------------------

  /** Whether the buffer is empty, and the address the next byte goes to. */
  datatype Cursor = Empty(base: int) | Filled(end: int)

  ghost function Advance(c: Cursor, r: Block): Cursor {
    if r.data != [] then Filled(r.addr + |r.data|)
    else if c.Filled? && r.addr != c.end then Empty(r.addr)
    else c
  }

  ghost function CursorAfter(rs: seq<Block>): Cursor {
    if rs == [] then Empty(0)
    else if |rs| == 1 then Advance(Empty(rs[0].addr), rs[0])
    else Advance(CursorAfter(rs[..|rs| - 1]), rs[|rs| - 1])
  }

  /** A data record that follows an empty one which opened a new block starts where that one did. */
  ghost predicate Anchored(rs: seq<Block>, i: nat)
    requires i < |rs|
  {
    var c := CursorAfter(rs[..i]);
    i > 0 && rs[i].data != [] && c.Empty? ==> c.base == rs[i].addr
  }

  ghost predicate WellPlaced(rs: seq<Block>) {
    forall i :: 0 <= i < |rs| ==> Anchored(rs, i)
  }

  lemma {:induction false} WellPlacedPrefix(rs: seq<Block>, n: nat)
    requires n <= |rs|
    ensures WellPlaced(rs) ==> WellPlaced(rs[..n])
  {
    if WellPlaced(rs) {
      forall i | 0 <= i < n
        ensures Anchored(rs[..n], i)
      {
        assert rs[..n][..i] == rs[..i];
        assert Anchored(rs, i);
      }
    }
  }

  lemma {:induction false} StartOfPrefix(rs: seq<Block>, n: nat)
    requires 0 < n <= |rs|
    ensures Start(rs[..n]) == Start(rs)
  {}

  ghost function CursorOf(m: Merger): Cursor {
    if m.buf == [] then Empty(m.addr) else Filled(m.addr + |m.buf|)
  }

  /** As long as the records are well placed, the cursor describes the merge buffer and the
      stream read equals the stream merged. */
  ghost predicate InStep(rs: seq<Block>) {
    var m := FeedAll(Start(rs), rs);
    && CursorAfter(rs) == CursorOf(m)
    && |m.buf| <= MAX_SEGMENT
    && Stream(Drain(m)) == Stream(rs)
  }

  lemma {:induction false} CursorFeeds(m: Merger, r: Block)
    requires |r.data| < 256 && |m.buf| <= MAX_SEGMENT
    ensures CursorOf(Feed(m, r)) == if r.data != [] && m.buf == [] && !Flushes(m, r) then Filled(m.addr + |r.data|)
                                    else Advance(CursorOf(m), r)
    ensures |Feed(m, r).buf| <= MAX_SEGMENT
  {}

  lemma {:induction false} FirstInStep(r: Block)
    requires |r.data| < 256
    ensures InStep([r])
  {
    var rs := [r];
    assert rs[..0] == [];
    FeedAppends(Start(rs), r);
    assert Stream(rs) == Stream([]) + Placed(r.addr, r.data);
  }

  lemma {:induction false} NextInStep(front: seq<Block>, r: Block)
    requires front != [] && InStep(front) && |r.data| < 256 && Anchored(front + [r], |front|)
    ensures InStep(front + [r])
  {
    var rs := front + [r];
    var m := FeedAll(Start(front), front);
    assert rs[..|front|] == front;
    FeedAllSnoc(front, r);
    CursorFeeds(m, r);
    FeedAppends(m, r);
    StreamSnoc(front, r);
    SamePlace(m, r);
  }

  lemma {:induction false} FeedAllSnoc(front: seq<Block>, r: Block)
    requires front != []
    ensures FeedAll(Start(front + [r]), front + [r]) == Feed(FeedAll(Start(front), front), r)
    ensures CursorAfter(front + [r]) == Advance(CursorAfter(front), r)
  {
    var rs := front + [r];
    assert rs[..|front|] == front && rs[|front|] == r && rs[0] == front[0];
  }

  /** A record that finds an empty buffer at its own address, or a filled one, lands where it says. */
  lemma {:induction false} SamePlace(m: Merger, r: Block)
    requires r.data != [] && m.buf == [] ==> m.addr == r.addr
    ensures Placed(Landing(m, r), r.data) == Placed(r.addr, r.data)
  {
    if r.data == [] {
      assert Placed(Landing(m, r), r.data) == [] == Placed(r.addr, r.data);
    }
  }

  lemma {:induction false} WellPlacedInStep(rs: seq<Block>)
    requires rs != [] && ShortRecords(rs) && WellPlaced(rs)
    ensures InStep(rs)
    decreases |rs|
  {
    var n := |rs| - 1;
    assert rs == rs[..n] + [rs[n]];
    if n == 0 {
      FirstInStep(rs[0]);
    } else {
      WellPlacedPrefix(rs, n);
      WellPlacedInStep(rs[..n]);
      assert Anchored(rs, n);
      NextInStep(rs[..n], rs[n]);
    }
  }

  lemma {:induction false} MergedStep(m: Merger, rs: seq<Block>, n: nat)
    requires n < |rs|
    ensures var before := FeedAll(m, rs[..n]);
            Stream(Drain(FeedAll(m, rs[..n + 1]))) == Stream(Drain(before)) + Placed(Landing(before, rs[n]), rs[n].data)
  {
    assert rs[..n + 1][..n] == rs[..n] && rs[..n + 1][n] == rs[n];
    FeedAppends(FeedAll(m, rs[..n]), rs[n]);
  }

  lemma {:induction false} StreamStep(rs: seq<Block>, n: nat)
    requires n < |rs|
    ensures Stream(rs[..n + 1]) == Stream(rs[..n]) + Placed(rs[n].addr, rs[n].data)
  {
    assert rs[..n + 1][..n] == rs[..n] && rs[..n + 1][n] == rs[n];
  }

  lemma {:induction false} PrefixOfLonger<T>(a: seq<T>, b: seq<T>, c: seq<T>)
    requires a + b <= c
    ensures a <= c
  {}

  /** Two streams that agree up to a point and differ there are different streams. */
  lemma {:induction false} PrefixesDiffer<T>(s: seq<T>, p: seq<T>, q: seq<T>, a: seq<T>, b: seq<T>)
    requires s + p <= a && s + q <= b
    requires p != [] && q != [] && p[0] != q[0]
    ensures a != b
  {
    assert (s + p)[|s|] == p[0] && (s + q)[|s|] == q[0];
  }

  lemma {:induction false} MergedLonger(m: Merger, rs: seq<Block>, n: nat)
    requires n < |rs|
    ensures Stream(Drain(FeedAll(m, rs[..n]))) <= Stream(Drain(FeedAll(m, rs[..n + 1])))
  {
    MergedStep(m, rs, n);
    var before := FeedAll(m, rs[..n]);
    PrefixOfLonger(Stream(Drain(before)), Placed(Landing(before, rs[n]), rs[n].data), Stream(Drain(FeedAll(m, rs[..n + 1]))));
  }

  /** Later records only extend the merged stream. */
  lemma {:induction false} MergedGrows(m: Merger, rs: seq<Block>, n: nat)
    requires n <= |rs|
    ensures Stream(Drain(FeedAll(m, rs[..n]))) <= Stream(Drain(FeedAll(m, rs)))
    decreases |rs| - n
  {
    if n < |rs| {
      MergedGrows(m, rs, n + 1);
      MergedLonger(m, rs, n);
      assert Stream(Drain(FeedAll(m, rs[..n]))) <= Stream(Drain(FeedAll(m, rs[..n + 1])));
    } else {
      assert rs[..n] == rs;
    }
  }

  lemma {:induction false} StreamGrows(rs: seq<Block>, n: nat)
    requires n <= |rs|
    ensures Stream(rs[..n]) <= Stream(rs)
    decreases |rs| - n
  {
    if n < |rs| {
      StreamGrows(rs, n + 1);
      assert rs[..n + 1][..n] == rs[..n];
    } else {
      assert rs[..n] == rs;
    }
  }

  /** The first record that is not anchored lands where it does not belong. */
  lemma {:induction false} LandsWrong(rs: seq<Block>, i: nat)
    requires ShortRecords(rs)
    requires i < |rs| && WellPlaced(rs[..i]) && !Anchored(rs, i)
    ensures var m := FeedAll(Start(rs), rs[..i]);
            rs[i].data != [] && Landing(m, rs[i]) != rs[i].addr && Stream(Drain(m)) == Stream(rs[..i])
  {
    StartOfPrefix(rs, i);
    WellPlacedInStep(rs[..i]);
  }

  /** At the first record that is not anchored the merged stream goes wrong, for good. */
  lemma {:induction false} MisplacedStaysMisplaced(rs: seq<Block>, i: nat)
    requires ShortRecords(rs)
    requires i < |rs| && WellPlaced(rs[..i]) && !Anchored(rs, i)
    ensures Stream(Merge(rs)) != Stream(rs)
  {
    var m := FeedAll(Start(rs), rs[..i]);
    LandsWrong(rs, i);
    var r := rs[i];
    MergedStep(Start(rs), rs, i);
    StreamStep(rs, i);
    MergedGrows(Start(rs), rs, i + 1);
    StreamGrows(rs, i + 1);
    PrefixesDiffer(Stream(rs[..i]), Placed(Landing(m, r), r.data), Placed(r.addr, r.data),
                   Stream(Merge(rs)), Stream(rs));
  }

  /** The first record that is not anchored. */
  lemma {:induction false} FirstMisplaced(rs: seq<Block>) returns (i: nat)
    requires !WellPlaced(rs)
    ensures i < |rs| && WellPlaced(rs[..i]) && !Anchored(rs, i)
    decreases |rs|
  {
    var n := |rs| - 1;
    if WellPlaced(rs[..n]) {
      i := n;
      forall k | 0 <= k < n
        ensures Anchored(rs, k)
      {
        assert rs[..n][..k] == rs[..k];
        assert Anchored(rs[..n], k);
      }
    } else {
      i := FirstMisplaced(rs[..n]);
      assert rs[..n][..i] == rs[..i];
    }
  }

  /** The merged segments carry the byte stream of the file exactly when every data record after
      an address-changing empty record starts at that record's address. */
  lemma {:induction false} MergePreservesStream(rs: seq<Block>)
    requires ShortRecords(rs)
    ensures Stream(Merge(rs)) == Stream(rs) <==> WellPlaced(rs)
  {
    if rs != [] && WellPlaced(rs) {
      WellPlacedInStep(rs);
    } else if !WellPlaced(rs) {
      var i := FirstMisplaced(rs);
      MisplacedStaysMisplaced(rs, i);
    }
  }

  /** Files without empty records are always merged faithfully. */
  lemma {:induction false} NonEmptyRecordsWellPlaced(rs: seq<Block>)
    requires ShortRecords(rs)
    requires forall i :: 0 <= i < |rs| ==> rs[i].data != []
    ensures WellPlaced(rs) && Stream(Merge(rs)) == Stream(rs)
  {
    forall i | 0 <= i < |rs|
      ensures Anchored(rs, i)
    {
      if i > 0 {
        assert rs[..i][i - 1] == rs[i - 1];
      }
    }
    MergePreservesStream(rs);
  }

  /** An empty first record moves the next record's bytes to its own address. */
  lemma {:induction false} EmptyRecordMisplaces()
    ensures Merge([Block(0x100, []), Block(0x200, [7])]) == [Block(0x100, [7])]
  {
    var rs := [Block(0x100, []), Block(0x200, [7])];
    assert rs[..1] == [Block(0x100, [])] && rs[..1][..0] == [];
    assert FeedAll(Start(rs), rs[..1]) == Feed(FeedAll(Start(rs), []), rs[0]);
    assert FeedAll(Start(rs), rs[..1]) == Merger(0x100, [], []);
    assert FeedAll(Start(rs), rs) == Merger(0x100, [7], []);
    assert Drain(Merger(0x100, [7], [])) == [Block(0x100, [7])];
  }

  // ---------------------------------------------------------------------
  // From text to segments
  // ---------------------------------------------------------------------

  const END_RECORD := ":00000001FF"

  /** The text of a file holding the data records rs and the end record. */
  function PrintFile(rs: seq<Block>, checksum: Block -> Byte): string
    requires ShortRecords(rs)
  {
    if rs == [] then END_RECORD + "\n" + ""
    else PrintRecord(rs[0], checksum(rs[0])) + "\n" + PrintFile(rs[1..], checksum)
  }

  /** The most data bytes a record can hold for its line, newline included, to fit the line buffer. */
  const MAX_RECORD := 249

  predicate FitLines(rs: seq<Block>) { forall k :: 0 <= k < |rs| ==> |rs[k].data| <= MAX_RECORD }

  lemma {:induction false} DigitsAvoidNewline(data: seq<Byte>)
    ensures Avoids(PrintBytes(data), "\n")
  {
    if data != [] {
      DigitsAvoidNewline(data[..|data| - 1]);
      DigitIsNoNewline(data[|data| - 1]);
    }
  }

  lemma {:induction false} DigitIsNoNewline(b: Byte)
    ensures Avoids(Print8(b), "\n")
  {
    assert HexDigit('\n') == 16;
  }

  lemma {:induction false} RecordIsOneLine(r: Block, checksum: Byte)
    requires |r.data| < 256
    ensures Avoids(PrintRecord(r, checksum), "\n")
  {
    DigitIsNoNewline(|r.data|);
    DigitIsNoNewline(r.addr / 256);
    DigitIsNoNewline(r.addr % 256);
    DigitIsNoNewline(checksum);
    DigitsAvoidNewline(r.data);
  }

  lemma {:induction false} EndRecordScans()
    ensures Scan(Gets(END_RECORD + "\n" + "")) == ([], AtEndRecord)
  {
    var s := END_RECORD;
    assert Field(s, 7, 9) == Print8(1);
    Hex8OfPrint8(1);
    GetsLine(s, "");
  }

  lemma {:induction false} ScanRecord(line: string, rest: seq<string>)
    requires ParseLine(line).Data?
    ensures Scan([line] + rest) == ([ParseLine(line).record] + Scan(rest).0, Scan(rest).1)
  {
    assert ([line] + rest)[1..] == rest;
  }

  lemma {:induction false} ScanPrinted(r: Block, checksum: Byte, rest: string)
    requires |r.data| <= MAX_RECORD
    ensures var after := Scan(Gets(rest));
            Scan(Gets(PrintRecord(r, checksum) + "\n" + rest)) == ([r] + after.0, after.1)
  {
    PrintedFields(r, checksum);
    RecordIsOneLine(r, checksum);
    GetsLine(PrintRecord(r, checksum), rest);
    ParseOfPrint(r, checksum);
    ScanRecord(PrintRecord(r, checksum), Gets(rest));
  }

  /** A record of 250 bytes is taken, but its newline is left over and refused as a line of its own; from
      251 bytes on the record itself is refused, because its line is cut. Either way the file ends there. */
  lemma {:induction false} LongRecordRefused(r: Block, checksum: Byte, rest: string)
    requires MAX_RECORD < |r.data| < 256
    ensures Scan(Gets(PrintRecord(r, checksum) + "\n" + rest))
            == if |r.data| == 250 then ([r], BadLine(-2)) else ([], BadLine(-4))
  {
    if |r.data| == 250 {
      NewlineLeftOver(r, checksum, rest);
    } else {
      var s := PrintRecord(r, checksum);
      PrintedFields(r, checksum);
      RecordIsOneLine(r, checksum);
      GetsPiece(s, rest);
      CutRecord(r, checksum);
      MalformedEnds(s[..LINE_BUFFER - 1], Gets(s[LINE_BUFFER - 1..] + "\n" + rest));
    }
  }

  lemma {:induction false} MalformedEnds(line: string, rest: seq<string>)
    requires ParseLine(line).Malformed?
    ensures Scan([line] + rest) == ([], BadLine(ParseLine(line).code))
  {}

  lemma {:induction false} NewlineLeftOver(r: Block, checksum: Byte, rest: string)
    requires |r.data| == 250
    ensures Scan(Gets(PrintRecord(r, checksum) + "\n" + rest)) == ([r], BadLine(-2))
  {
    var s := PrintRecord(r, checksum);
    PrintedFields(r, checksum);
    RecordIsOneLine(r, checksum);
    GetsPiece(s, rest);
    assert s[..LINE_BUFFER - 1] == s && s[LINE_BUFFER - 1..] == "";
    ParseOfPrint(r, checksum);
    GetsLine("", rest);
    MalformedEnds("", Gets(rest));
    ScanRecord(s, [""] + Gets(rest));
    assert [r] + [] == [r];
  }

  lemma {:induction false} CutRecord(r: Block, checksum: Byte)
    requires 250 < |r.data| < 256
    ensures ParseLine(PrintRecord(r, checksum)[..LINE_BUFFER - 1]) == Malformed(-4)
  {
    var s := PrintRecord(r, checksum);
    var cut := s[..LINE_BUFFER - 1];
    PrintedFields(r, checksum);
    assert cut[1..3] == s[1..3] && cut[7..9] == s[7..9];
    Hex8OfPrint8(|r.data|);
    Hex8OfPrint8(0);
  }

  /** A comment that does not fit the line buffer is refused too, unless what is left of it happens to look
      like a comment or a record. */
  lemma {:induction false} LongCommentRefused(line: string, rest: string)
    requires Avoids(line, "\n") && |line| >= LINE_BUFFER - 1 && line[0] == '#'
    requires |line| > LINE_BUFFER - 1 ==> line[LINE_BUFFER - 1] !in "#:"
    ensures Scan(Gets(line + "\n" + rest)) == ([], BadLine(-2))
  {
    var n := LINE_BUFFER - 1;
    var left := line[n..] + "\n" + rest;
    GetsPiece(line, rest);
    assert ([line[..n]] + Gets(left))[1..] == Gets(left);
    GetsHead(left);
  }

  lemma {:induction false} GetsHead(text: string)
    requires text != "" && text[0] !in "#:"
    ensures Gets(text) != [] && ParseLine(Gets(text)[0]) == Malformed(-2)
  {}

  /** A printed file is read back as its records, up to the end record, exactly when every record fits
      the line buffer. */
  lemma {:induction false} ScanOfPrint(rs: seq<Block>, checksum: Block -> Byte)
    requires ShortRecords(rs)
    ensures Scan(Gets(PrintFile(rs, checksum))) == (rs, AtEndRecord)
            <==> FitLines(rs)
  {
    if rs == [] {
      EndRecordScans();
    } else {
      assert rs == [rs[0]] + rs[1..];
      ScanOfPrint(rs[1..], checksum);
      ScanOfPrintNext(rs[0], rs[1..], checksum(rs[0]), PrintFile(rs[1..], checksum));
      FitLinesHead(rs);
    }
  }

  /** One more record in front. */
  lemma {:induction false} ScanOfPrintNext(r: Block, rs: seq<Block>, checksum: Byte, rest: string)
    requires |r.data| < 256
    ensures Scan(Gets(PrintRecord(r, checksum) + "\n" + rest)) == ([r] + rs, AtEndRecord)
            <==> |r.data| <= MAX_RECORD && Scan(Gets(rest)) == (rs, AtEndRecord)
  {
    if |r.data| <= MAX_RECORD {
      ScanPrinted(r, checksum, rest);
      OneMore(r, Scan(Gets(rest)).0, rs);
    } else {
      LongRecordRefused(r, checksum, rest);
    }
  }

  lemma {:induction false} FitLinesHead(rs: seq<Block>)
    requires rs != []
    ensures FitLines(rs) <==> |rs[0].data| <= MAX_RECORD && FitLines(rs[1..])
  {
    assert forall k :: 0 < k < |rs| ==> rs[k] == rs[1..][k - 1];
  }

  lemma {:induction false} OneMore(r: Block, a: seq<Block>, b: seq<Block>)
    ensures [r] + a == [r] + b <==> a == b
  {
    assert ([r] + a)[1..] == a && ([r] + b)[1..] == b;
  }

  /** From the text of a file whose records fit the line buffer to its segments: same bytes at the same
      addresses, in order, exactly when the records are well placed. */
  lemma {:induction false} FileStream(rs: seq<Block>, checksum: Block -> Byte)
    requires FitLines(rs)
    ensures Stream(Segments(Gets(PrintFile(rs, checksum)))) == Stream(rs) <==> WellPlaced(rs)
  {
    ScanOfPrint(rs, checksum);
    MergePreservesStream(rs);
  }
}
