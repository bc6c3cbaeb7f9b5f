// A file that is too big for the EEPROM, that every check lets through, and that overwrites the boot byte.
module EepromOverflow {
  import opened Common
  import opened Ihex
  import opened EzUsb
  import opened EepromLoad
  import opened EepromWrap

  function Sixteen(fill: Byte): seq<Byte> { seq(16, i requires 0 <= i < 16 => fill) }

  function Record(n: nat, fill: Byte): Block { Block(if n % 2 == 0 then 0 else 0x100, Sixteen(fill)) }

  /** n records of 16 equal bytes each, at two on-chip addresses in turn. */
  function Alternating(n: nat, fill: Byte): (rs: seq<Block>)
    ensures |rs| == n
  {
    if n == 0 then [] else Alternating(n - 1, fill) + [Record(n - 1, fill)]
  }

  lemma {:induction false} AlternatingAt(n: nat, fill: Byte, k: nat)
    requires k < n
    ensures Alternating(n, fill)[k] == Record(k, fill)
  {
    if k < n - 1 { AlternatingAt(n - 1, fill, k); }
  }

  lemma {:induction false} AlternatingFits(n: nat, fill: Byte)
    ensures FitLines(Alternating(n, fill)) && ShortRecords(Alternating(n, fill)) && Sized(Alternating(n, fill))
  {
    forall k | 0 <= k < n ensures Alternating(n, fill)[k] == Record(k, fill) { AlternatingAt(n, fill, k); }
  }

  /** No two neighbours can be merged. */
  lemma {:induction false} NoMerging(n: nat, fill: Byte)
    requires n > 0
    ensures FeedAll(Start(Alternating(n, fill)), Alternating(n, fill)) == Merger(Record(n - 1, fill).addr, Sixteen(fill), Alternating(n - 1, fill))
  {
    var rs := Alternating(n, fill);
    AlternatingAt(n, fill, 0);
    assert rs[..n - 1] == Alternating(n - 1, fill) && rs[n - 1] == Record(n - 1, fill);
    if n == 1 {
      assert FeedAll(Start(rs), []) == Start(rs);
      assert [] + Sixteen(fill) == Sixteen(fill);
    } else {
      AlternatingAt(n - 1, fill, 0);
      NoMerging(n - 1, fill);
      var p := Merger(Record(n - 2, fill).addr, Sixteen(fill), Alternating(n - 2, fill));
      assert Flushes(p, Record(n - 1, fill));
      assert Block(p.addr, p.buf) == Record(n - 2, fill);
    }
  }

  lemma {:induction false} AlternatingSegments(n: nat, fill: Byte)
    requires n > 0
    ensures Merge(Alternating(n, fill)) == Alternating(n, fill)
  {
    NoMerging(n, fill);
  }

  lemma {:induction false} EncodedLength(n: nat, fill: Byte)
    ensures Sized(Alternating(n, fill)) && |Encoded(Alternating(n, fill))| == 20 * n
  {
    AlternatingFits(n, fill);
    if n > 0 {
      EncodedLength(n - 1, fill);
      var rs := Alternating(n, fill);
      assert rs[..n - 1] == Alternating(n - 1, fill) && rs[n - 1] == Record(n - 1, fill);
      EncodedSnoc(rs);
    }
  }

  /** A device that takes every write takes every list of on-chip segments. */
  lemma {:induction false} GrantingBurns(chip: Chip, s: State, segs: seq<Block>)
    requires s.ctx.Eeprom? && Sized(segs) && StaysOnChip(chip, segs)
    ensures PokeAll(Granting(), chip, s, segs).1 && PokeAll(Granting(), chip, s, segs).0.ctx.Eeprom?
    decreases |segs|
  {
    if segs != [] {
      var front, last := segs[..|segs| - 1], segs[|segs| - 1];
      assert last in segs && forall b :: b in front ==> b in segs;
      GrantingBurns(chip, s, front);
      assert !External(chip, last);
    }
  }

  lemma {:induction false} AlternatingOnChip(chip: Chip, n: nat, fill: Byte)
    ensures StaysOnChip(chip, Alternating(n, fill))
  {
    forall b | b in Alternating(n, fill) ensures !External(chip, b) {
      var k :| 0 <= k < n && Alternating(n, fill)[k] == b;
      AlternatingAt(n, fill, k);
    }
  }

  function NoSum(b: Block): Byte { 0 }

  /** The text of the file, as the loader reads it. */
  function BigFile(n: nat, fill: Byte): seq<string> {
    AlternatingFits(n, fill);
    Gets(PrintFile(Alternating(n, fill), NoSum))
  }

  lemma {:induction false} BigFileSegments(n: nat, fill: Byte)
    requires n > 0
    ensures Segments(BigFile(n, fill)) == Alternating(n, fill) && Scan(BigFile(n, fill)).1 == AtEndRecord
  {
    AlternatingFits(n, fill);
    ScanOfPrint(Alternating(n, fill), NoSum);
    AlternatingSegments(n, fill);
  }

  /** With the boot byte, the configuration and the reset record, 3276 of the records are the most that fit. */
  lemma {:induction false} BigFileFitsIff(lay: Layout, n: nat, fill: Byte)
    requires Proper(lay) && n > 0
    ensures Fits(lay, BigFile(n, fill)) <==> n <= 3276
  {
    BigFileSegments(n, fill);
    EncodedLength(n, fill);
  }

  lemma {:induction false} BigFileIsTaken(lay: Layout, log: seq<Xfer>, n: nat, fill: Byte)
    requires n > 0
    ensures PutImage(Granting(), lay, log, BigFile(n, fill)).1 >= 0
  {
    var s := State(Eeprom(lay.start, false), log);
    BigFileSegments(n, fill);
    AlternatingFits(n, fill);
    AlternatingOnChip(lay.chip, n, fill);
    GrantingBurns(lay.chip, s, Alternating(n, fill));
  }

  lemma {:induction false} EncodedNext(n: nat, fill: Byte)
    ensures Sized(Alternating(n, fill)) && Sized(Alternating(n + 1, fill))
    ensures Encoded(Alternating(n + 1, fill)) == Encoded(Alternating(n, fill)) + Encode(Record(n, fill), false)
  {
    AlternatingFits(n, fill);
    AlternatingFits(n + 1, fill);
    var rs := Alternating(n + 1, fill);
    assert rs[..n] == Alternating(n, fill) && rs[n] == Record(n, fill);
    EncodedSnoc(rs);
  }

  lemma {:induction false} EncodedPrefix(n: nat, m: nat, fill: Byte)
    requires m <= n
    ensures Sized(Alternating(n, fill)) && Sized(Alternating(m, fill))
    ensures Encoded(Alternating(m, fill)) <= Encoded(Alternating(n, fill))
  {
    AlternatingFits(n, fill);
    if m < n {
      EncodedPrefix(n - 1, m, fill);
      EncodedNext(n - 1, fill);
    }
  }

  /** The data of record 3276 lies around the end of the 64K. */
  lemma {:induction false} DataWraps(n: nat, fill: Byte, q: nat)
    requires n >= 3277 && 65524 <= q < 65540
    ensures Sized(Alternating(n, fill)) && |Encoded(Alternating(n, fill))| > q && Encoded(Alternating(n, fill))[q] == fill
  {
    EncodedPrefix(n, 3277, fill);
    EncodedLength(3276, fill);
    EncodedNext(3276, fill);
    var record := Encode(Record(3276, fill), false);
    assert Encoded(Alternating(3277, fill))[q] == record[q - 65520] == Record(3276, fill).data[q - 65524];
  }

  /** For every chip type, a file of 3277 or more records that all hold the chip's boot byte is burned without an
      error onto a device that takes every write. On the way, with the reset record still to be written, the
      boot byte is that of a bootable EEPROM. */
  lemma {:induction false} BigFileBootsHalfWritten(kind: string, config: bv8, log: seq<Xfer>, n: nat) returns (k: nat)
    requires LayoutOf(kind, config).Some? && n >= 3277
    ensures var lay := LayoutOf(kind, config).value;
            var lines := BigFile(n, lay.firstByte);
            var log1 := PutByte(Granting(), log, 0, 0).0;
            var (after, status) := Burn(Granting(), lay, log, lines);
            && status == 0 && !Fits(lay, lines) && !HarmlessFile(lay, lines)
            && |log| < k && k + 2 <= |PutImage(Granting(), lay, log1, lines).0.log| < |after.log|
            && ByteAt(after.log[..k], EEPROM, 0) == Some(lay.firstByte)
  {
    var lay := LayoutOf(kind, config).value;
    var lines, log1 := BigFile(n, lay.firstByte), PutByte(Granting(), log, 0, 0).0;
    BigFileFitsIff(lay, n, lay.firstByte);
    BigFileIsTaken(lay, log1, n, lay.firstByte);
    BigFileSegments(n, lay.firstByte);
    k := BootByteWraps(lay, log1, lines, n);
    PrepareLonger(Granting(), lay, log1, lines);
    var image, after := PutImage(Granting(), lay, log1, lines).0.log, Burn(Granting(), lay, log, lines).0.log;
    assert after[..k] == image[..k];
  }

  lemma {:induction false} BootByteWraps(lay: Layout, log: seq<Xfer>, lines: seq<string>, n: nat) returns (k: nat)
    requires Proper(lay) && n >= 3277 && Segments(lines) == Alternating(n, lay.firstByte)
    requires PutImage(Granting(), lay, log, lines).1 >= 0
    ensures var t := PutImage(Granting(), lay, log, lines).0;
            && !HarmlessFile(lay, lines) && |log| <= k && k + 2 <= |t.log|
            && ByteAt(t.log[..k], EEPROM, 0) == Some(lay.firstByte)
  {
    DataWraps(n, lay.firstByte, 0x1_0000 - lay.start);
    k := SegmentByteShows(Granting(), lay, log, lines, 0x1_0000 - lay.start);
  }
}
