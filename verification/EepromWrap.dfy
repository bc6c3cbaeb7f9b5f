// The 16-bit EEPROM address counts round: exactly when the bytes of an image that wraps leave the boot byte at 0.
module EepromWrap {
  import opened Common
  import opened Ihex
  import opened EzUsb
  import opened EepromLoad

  lemma {:induction false} WrapAdds(u: int, i: int)
    ensures Wrap16(Wrap16(u) + i) == Wrap16(u + i)
  {}

  // ---------------------------------------------------------------------
  // A log spells out a text
  // ---------------------------------------------------------------------

  /** The requests carry the bytes, one after the other, to consecutive addresses from u on, counting round. */
  ghost predicate Spells(xs: seq<Xfer>, u: nat, bytes: seq<Byte>) {
    if xs == [] then bytes == []
    else
      var r := xs[|xs| - 1].request;
      var n := |bytes| - |r.data|;
      && n >= 0 && |r.data| <= MAX_SEGMENT && r.op == RwEeprom
      && r.addr == Wrap16(u + n) && r.data == bytes[n..] && Spells(xs[..|xs| - 1], u, bytes[..n])
  }

  lemma {:induction false} SpellsSnoc(xs: seq<Xfer>, u: nat, bytes: seq<Byte>, x: Xfer)
    requires Spells(xs, u, bytes) && x.request.op == RwEeprom && x.request.addr == Wrap16(u + |bytes|)
    requires |x.request.data| <= MAX_SEGMENT
    ensures Spells(xs + [x], u, bytes + x.request.data)
  {
    assert (xs + [x])[..|xs|] == xs;
    assert (bytes + x.request.data)[..|bytes|] == bytes;
  }

  /** What was added to the log spells the bytes. */
  ghost predicate Spelled(log: seq<Xfer>, log': seq<Xfer>, u: nat, bytes: seq<Byte>) {
    log <= log' && Spells(log'[|log|..], u, bytes)
  }

  /** Everything added to the log was taken. */
  ghost predicate Taken(log: seq<Xfer>, log': seq<Xfer>) {
    log <= log' && forall k :: |log| <= k < |log'| ==> log'[k].answer.Done?
  }

  lemma {:induction false} IssueSpells(device: Device, log: seq<Xfer>, log1: seq<Xfer>, u: nat, bytes: seq<Byte>, r: Request)
    requires Spelled(log, log1, u, bytes) && r.op == RwEeprom && r.addr == Wrap16(u + |bytes|) && |r.data| <= MAX_SEGMENT
    ensures Spelled(log, Issue(device, log1, r), u, bytes + r.data)
    ensures Taken(log, log1) && device(|log1|).Done? ==> Taken(log, Issue(device, log1, r))
  {
    var x := Xfer(r, device(|log1|));
    SpellsSnoc(log1[|log|..], u, bytes, x);
    assert (log1 + [x])[|log|..] == log1[|log|..] + [x];
  }

  /** One segment, or the part of it that was sent before a failure. */
  lemma {:induction false} PokedSpells(device: Device, log: seq<Xfer>, s: State, u: nat, bytes: seq<Byte>, b: Block)
    returns (more: seq<Byte>)
    requires s.ctx.Eeprom? && s.ctx.eeAddr == Wrap16(u + |bytes|) && |b.data| <= MAX_SEGMENT
    requires Spelled(log, s.log, u, bytes) && Taken(log, s.log)
    ensures more <= Encode(b, s.ctx.last)
    ensures var (t, rc) := EepromPoked(device, s, b.addr, false, b.data);
            && Spelled(log, t.log, u, bytes + more)
            && (rc >= 0 ==> more == Encode(b, s.ctx.last) && Taken(log, t.log)
                            && t.ctx == Eeprom(Wrap16(u + |bytes + more|), s.ctx.last))
  {
    var header := Header(b.addr, |b.data|, s.ctx.last);
    var r1 := Request(RwEeprom, s.ctx.eeAddr, header);
    var log1 := Issue(device, s.log, r1);
    IssueSpells(device, log, s.log, u, bytes, r1);
    more := header;
    if device(|s.log|).Done? {
      WrapAdds(u + |bytes|, 4);
      IssueSpells(device, log, log1, u, bytes + header, Request(RwEeprom, Wrap16(s.ctx.eeAddr + 4), b.data));
      Common.Regroup(bytes, header, b.data);
      WrapAdds(u + |bytes|, 4 + |b.data|);
      more := header + b.data;
    }
  }

  /** The first m of the bytes have been sent, and if all went well, all of them. */
  ghost predicate Progress(log: seq<Xfer>, r: (State, bool), u: nat, bytes: seq<Byte>, m: nat) {
    && m <= |bytes| && Spelled(log, r.0.log, u, bytes[..m])
    && (r.1 ==> m == |bytes| && Taken(log, r.0.log) && r.0.ctx == Eeprom(Wrap16(u + m), false))
  }

  lemma {:induction false} NoProgress(s: State, u: nat)
    requires s.ctx == Eeprom(Wrap16(u), false)
    ensures Progress(s.log, (s, true), u, [], 0)
  {}

  lemma {:induction false} NoMore(log: seq<Xfer>, s: State, u: nat, a: seq<Byte>, b: seq<Byte>, m: nat, ok: bool)
    requires Progress(log, (s, ok), u, a, m)
    ensures Progress(log, (s, false), u, a + b, m)
  {
    assert (a + b)[..m] == a[..m];
  }

  /** All the segments, or those before a failure and part of one more. */
  lemma {:induction false} SegmentsSpell(device: Device, chip: Chip, s: State, u: nat, segs: seq<Block>) returns (m: nat)
    requires s.ctx == Eeprom(Wrap16(u), false) && Sized(segs)
    ensures Progress(s.log, PokeAll(device, chip, s, segs), u, Encoded(segs), m)
    decreases |segs|
  {
    if segs == [] {
      m := 0;
      NoProgress(s, u);
    } else {
      var front, b := segs[..|segs| - 1], segs[|segs| - 1];
      EncodedSnoc(segs);
      m := SegmentsSpell(device, chip, s, u, front);
      var (s1, ok1) := PokeAll(device, chip, s, front);
      if ok1 {
        m := OneMore(device, chip, s.log, s1, u, Encoded(front), b);
      } else {
        NoMore(s.log, s1, u, Encoded(front), Encode(b, false), m, false);
      }
    }
  }

  lemma {:induction false} OneMore(device: Device, chip: Chip, log: seq<Xfer>, s: State, u: nat, bytes: seq<Byte>, b: Block)
    returns (m: nat)
    requires Progress(log, (s, true), u, bytes, |bytes|) && |b.data| <= MAX_SEGMENT
    ensures var (t, rc) := PokeBlock(device, chip, s, b); Progress(log, (t, rc >= 0), u, bytes + Encode(b, false), m)
  {
    assert bytes[..|bytes|] == bytes;
    if IsExternal(chip, b.addr, |b.data|) {
      m := |bytes|;
      NoMore(log, s, u, bytes, Encode(b, false), m, true);
    } else {
      var more := PokedSpells(device, log, s, u, bytes, b);
      m := |bytes + more|;
      assert (bytes + Encode(b, false))[..m] == bytes + more;
    }
  }

  /** The image, or the part of it that was sent before a failure. */
  lemma {:induction false} ImageSpells(device: Device, lay: Layout, log: seq<Xfer>, lines: seq<string>) returns (m: nat)
    requires Sized(Segments(lines))
    ensures m <= |Image(Segments(lines), lay.chip)|
    ensures var (t, rc) := PutImage(device, lay, log, lines);
            && Spelled(log, t.log, lay.start, Image(Segments(lines), lay.chip)[..m])
            && (rc >= 0 ==> m == |Image(Segments(lines), lay.chip)| && Taken(log, t.log))
  {
    var segs, s := Segments(lines), State(Eeprom(lay.start, false), log);
    m := SegmentsSpell(device, lay.chip, s, lay.start, segs);
    PokeAllStaysEeprom(device, lay.chip, s, segs);
    var (s1, ok) := PokeAll(device, lay.chip, s, segs);
    NoMore(log, s1, lay.start, Encoded(segs), Encode(Block(CpucsAddr(lay.chip), [0]), true), m, ok);
    if Parsed(device, lay.chip, s, lines).1 >= 0 {
      m := ResetSpells(device, lay.chip, log, s1, lay.start, Encoded(segs));
    }
  }

  /** The reset record, or part of it. */
  lemma {:induction false} ResetSpells(device: Device, chip: Chip, log: seq<Xfer>, s: State, u: nat, bytes: seq<Byte>) returns (m: nat)
    requires Progress(log, (s, true), u, bytes, |bytes|)
    ensures var all := bytes + Encode(Block(CpucsAddr(chip), [0]), true);
            var (t, rc) := EepromPoked(device, s.(ctx := s.ctx.(last := true)), CpucsAddr(chip), false, [0]);
            && m <= |all| && Spelled(log, t.log, u, all[..m]) && (rc >= 0 ==> m == |all| && Taken(log, t.log))
  {
    var reset := Block(CpucsAddr(chip), [0]);
    assert bytes[..|bytes|] == bytes;
    var more := PokedSpells(device, log, s.(ctx := s.ctx.(last := true)), u, bytes, reset);
    m := |bytes + more|;
    assert (bytes + Encode(reset, true))[..m] == bytes + more;
  }

  // ---------------------------------------------------------------------
  // Why the image has to fit
  // ---------------------------------------------------------------------

  ghost predicate Touches(r: Request, a: Addr16) { OffsetOf(r, a) < |r.data| }

  /** Some request from the n-th on writes address a. */
  ghost predicate TouchedSince(log: seq<Xfer>, n: nat, a: Addr16) {
    exists k :: n <= k < |log| && Touches(log[k].request, a)
  }

  lemma {:induction false} TouchedLater(log: seq<Xfer>, log': seq<Xfer>, n: nat, m: nat, a: Addr16)
    requires log <= log' && n <= m && TouchedSince(log, m, a)
    ensures TouchedSince(log', n, a)
  {
    var k :| m <= k < |log| && Touches(log[k].request, a);
    assert log'[k] == log[k];
  }

  lemma {:induction false} TouchesAt(r: Request, u: nat, i: nat)
    requires r.addr == Wrap16(u) && i < |r.data| && i < 0x1_0000
    ensures Touches(r, Wrap16(u + i))
  {
    WrapAdds(u, i);
    assert OffsetOf(r, Wrap16(r.addr + i)) == i;
  }

  /** Every byte is written to its address, counting round. */
  lemma {:induction false} SpellsTouches(log: seq<Xfer>, log': seq<Xfer>, u: nat, bytes: seq<Byte>, q: nat)
    requires Spelled(log, log', u, bytes) && q < |bytes|
    ensures TouchedSince(log', |log|, Wrap16(u + q))
    decreases |log'|
  {
    var xs := log'[|log|..];
    var front, x := log'[..|log'| - 1], log'[|log'| - 1];
    assert x == xs[|xs| - 1] && front[|log|..] == xs[..|xs| - 1];
    var n := |bytes| - |x.request.data|;
    if q < n {
      SpellsTouches(log, front, u, bytes[..n], q);
      TouchedLater(front, log', |log|, |log|, Wrap16(u + q));
    } else {
      TouchesAt(x.request, u + n, q - n);
    }
  }

  /** The 16-bit EEPROM address counts round: writing the image leaves the bytes in front of it
      alone exactly when the image ends within the first 64K. An image that does not fit overwrites
      byte 0, the very byte that keeps a half-written EEPROM from booting. */
  lemma {:induction false} ReservedBytesIffFits(device: Device, lay: Layout, log: seq<Xfer>, lines: seq<string>)
    requires Proper(lay) && PutImage(device, lay, log, lines).1 >= 0
    ensures (forall a :: 0 <= a < lay.start ==> !TouchedSince(PutImage(device, lay, log, lines).0.log, |log|, a))
       <==> Fits(lay, lines)
  {
    SegmentsInRange(lines);
    var t := PutImage(device, lay, log, lines).0;
    if Fits(lay, lines) {
      PutImageHolds(device, lay, log, lines);
      forall a, k | 0 <= a < lay.start && |log| <= k < |t.log|
        ensures !Touches(t.log[k].request, a)
      {
        OutsideUntouched(t.log[k].request, lay.start, 0x1_0000, a);
      }
    } else {
      OversizedTouchesBoot(device, lay, log, lines);
    }
  }

  lemma {:induction false} OversizedTouchesBoot(device: Device, lay: Layout, log: seq<Xfer>, lines: seq<string>)
    requires Proper(lay) && PutImage(device, lay, log, lines).1 >= 0 && !Fits(lay, lines)
    ensures TouchedSince(PutImage(device, lay, log, lines).0.log, |log|, 0)
  {
    SegmentsInRange(lines);
    var m := ImageSpells(device, lay, log, lines);
    var image := Image(Segments(lines), lay.chip);
    assert image[..m] == image;
    SpellsTouches(log, PutImage(device, lay, log, lines).0.log, lay.start, image, 0x1_0000 - lay.start);
  }

  // ---------------------------------------------------------------------
  // What address 0 holds
  // ---------------------------------------------------------------------

  /** The bytes that fall on address 0 are all 0. */
  ghost predicate Harmless(u: nat, bytes: seq<Byte>) {
    forall q :: 0 <= q < |bytes| && Wrap16(u + q) == 0 ==> bytes[q] == 0
  }

  /** Where a request hits address 0. */
  lemma {:induction false} HitsZero(r: Request, u: nat, n: nat)
    requires r.addr == Wrap16(u + n) && OffsetOf(r, 0) < |r.data|
    ensures Wrap16(u + n + OffsetOf(r, 0)) == 0
  {
    WrapAdds(u + n, OffsetOf(r, 0));
  }

  lemma {:induction false} ZeroIsHit(r: Request, u: nat, n: nat, q: nat)
    requires r.addr == Wrap16(u + n) && n <= q < n + |r.data| && |r.data| <= MAX_SEGMENT && Wrap16(u + q) == 0
    ensures OffsetOf(r, 0) == q - n
  {
    WrapAdds(u + n, q - n);
  }

  lemma {:induction false} HarmlessPrefix(u: nat, bytes: seq<Byte>, n: nat)
    requires Harmless(u, bytes) && n <= |bytes|
    ensures Harmless(u, bytes[..n])
  {
    forall q | 0 <= q < n && Wrap16(u + q) == 0 ensures bytes[..n][q] == 0 { assert bytes[q] == 0; }
  }

  /** One request of harmless bytes. */
  lemma {:induction false} ZeroNext(log: seq<Xfer>, x: Xfer, u: nat, bytes: seq<Byte>, n: nat)
    requires ByteAt(log, EEPROM, 0) == Some(0) && Harmless(u, bytes)
    requires n <= |bytes| && x.request.addr == Wrap16(u + n) && x.request.data == bytes[n..]
    ensures ByteAt(log + [x], EEPROM, 0) == Some(0)
  {
    assert (log + [x])[..|log|] == log;
    var i := OffsetOf(x.request, 0);
    if i < |x.request.data| {
      HitsZero(x.request, u, n);
      assert bytes[n + i] == 0;
    }
  }

  /** Harmless bytes leave a 0 there, at every point. */
  lemma {:induction false} ZeroStays(log: seq<Xfer>, xs: seq<Xfer>, u: nat, bytes: seq<Byte>, k: nat)
    requires ByteAt(log, EEPROM, 0) == Some(0) && Spells(xs, u, bytes) && Harmless(u, bytes) && k <= |xs|
    ensures ByteAt(log + xs[..k], EEPROM, 0) == Some(0)
  {
    if xs == [] {
      assert log + xs[..0] == log;
    } else {
      var m := |xs| - 1;
      var n := |bytes| - |xs[m].request.data|;
      HarmlessPrefix(u, bytes, n);
      ZeroStays(log, xs[..m], u, bytes[..n], if k <= m then k else m);
      if k <= m {
        assert xs[..m][..k] == xs[..k];
      } else {
        assert xs[..m][..m] == xs[..m] && log + xs[..k] == log + xs[..m] + [xs[m]];
        ZeroNext(log + xs[..m], xs[m], u, bytes, n);
      }
    }
  }

  /** Every byte that falls on address 0 is there at some point. */
  lemma {:induction false} ByteShows(log: seq<Xfer>, log': seq<Xfer>, u: nat, bytes: seq<Byte>, q: nat) returns (k: nat)
    requires Spelled(log, log', u, bytes) && Taken(log, log') && q < |bytes| && Wrap16(u + q) == 0
    ensures |log| < k <= |log'| && ByteAt(log'[..k], EEPROM, 0) == Some(bytes[q])
    decreases |log'|
  {
    var xs := log'[|log|..];
    var front, x := log'[..|log'| - 1], log'[|log'| - 1];
    assert x == xs[|xs| - 1] && front[|log|..] == xs[..|xs| - 1];
    var n := |bytes| - |x.request.data|;
    if q < n {
      k := ByteShows(log, front, u, bytes[..n], q);
      assert log'[..k] == front[..k];
    } else {
      ZeroIsHit(x.request, u, n, q);
      k := |log'|;
      assert log'[..k] == log';
    }
  }

  // ---------------------------------------------------------------------
  // The boot byte while the image is written
  // ---------------------------------------------------------------------

  ghost predicate HarmlessFile(lay: Layout, lines: seq<string>) {
    SegmentsInRange(lines);
    Harmless(lay.start, Image(Segments(lines), lay.chip))
  }

  /** Byte 0 is 0 after each of the requests from n on. */
  ghost predicate StaysUnbootable(log: seq<Xfer>, n: nat) {
    forall k :: n <= k <= |log| ==> ByteAt(log[..k], EEPROM, 0) == Some(0)
  }

  /** An image that fits does not come round. */
  lemma {:induction false} FittingIsHarmless(lay: Layout, lines: seq<string>)
    requires Proper(lay) && Fits(lay, lines)
    ensures HarmlessFile(lay, lines)
  {
    SegmentsInRange(lines);
    InsideIsHarmless(lay.start, Image(Segments(lines), lay.chip));
  }

  lemma {:induction false} InsideIsHarmless(u: nat, bytes: seq<Byte>)
    requires 0 < u && u + |bytes| <= 0x1_0000
    ensures Harmless(u, bytes)
  {}

  lemma {:induction false} ZeroThroughout(log: seq<Xfer>, log': seq<Xfer>, u: nat, bytes: seq<Byte>)
    requires ByteAt(log, EEPROM, 0) == Some(0) && Spelled(log, log', u, bytes) && Harmless(u, bytes)
    ensures StaysUnbootable(log', |log|)
  {
    var xs := log'[|log|..];
    forall k | |log| <= k <= |log'| ensures ByteAt(log'[..k], EEPROM, 0) == Some(0) {
      assert log'[..k] == log + xs[..k - |log|];
      ZeroStays(log, xs, u, bytes, k - |log|);
    }
  }

  /** On every device, through every failure: while a harmless image is written, byte 0 stays 0. */
  lemma {:induction false} HarmlessStaysUnbootable(device: Device, lay: Layout, log: seq<Xfer>, lines: seq<string>)
    requires HarmlessFile(lay, lines) && ByteAt(log, EEPROM, 0) == Some(0)
    ensures StaysUnbootable(PutImage(device, lay, log, lines).0.log, |log|)
  {
    SegmentsInRange(lines);
    var t := PutImage(device, lay, log, lines).0;
    var m := ImageSpells(device, lay, log, lines);
    var image := Image(Segments(lines), lay.chip);
    HarmlessPrefix(lay.start, image, m);
    ZeroThroughout(log, t.log, lay.start, image[..m]);
  }

  /** Exactly when the boot byte stays 0 while the whole image is written: every byte of the image that falls
      on address 0, counting round, is itself 0. */
  lemma {:induction false} UnbootableIffHarmless(device: Device, lay: Layout, log: seq<Xfer>, lines: seq<string>)
    requires PutImage(device, lay, log, lines).1 >= 0 && ByteAt(log, EEPROM, 0) == Some(0)
    ensures StaysUnbootable(PutImage(device, lay, log, lines).0.log, |log|) <==> HarmlessFile(lay, lines)
  {
    SegmentsInRange(lines);
    if HarmlessFile(lay, lines) {
      HarmlessStaysUnbootable(device, lay, log, lines);
    } else {
      var m := ImageSpells(device, lay, log, lines);
      var image := Image(Segments(lines), lay.chip);
      assert image[..m] == image;
      HarmShows(log, PutImage(device, lay, log, lines).0.log, lay.start, image);
    }
  }

  lemma {:induction false} HarmShows(log: seq<Xfer>, log': seq<Xfer>, u: nat, bytes: seq<Byte>)
    requires Spelled(log, log', u, bytes) && Taken(log, log') && !Harmless(u, bytes)
    ensures !StaysUnbootable(log', |log|)
  {
    var q :| 0 <= q < |bytes| && Wrap16(u + q) == 0 && bytes[q] != 0;
    var k := ByteShows(log, log', u, bytes, q);
  }

  lemma {:induction false} SegmentShows(device: Device, chip: Chip, s: State, u: nat, segs: seq<Block>, q: nat) returns (k: nat)
    requires s.ctx == Eeprom(Wrap16(u), false) && Sized(segs) && PokeAll(device, chip, s, segs).1
    requires q < |Encoded(segs)| && Wrap16(u + q) == 0
    ensures var t := PokeAll(device, chip, s, segs).0;
            |s.log| < k <= |t.log| && ByteAt(t.log[..k], EEPROM, 0) == Some(Encoded(segs)[q])
  {
    var m := SegmentsSpell(device, chip, s, u, segs);
    assert Encoded(segs)[..m] == Encoded(segs);
    k := ByteShows(s.log, PokeAll(device, chip, s, segs).0.log, u, Encoded(segs), q);
  }

  /** A byte of the segments that falls on address 0 is there at some point before the reset record is written;
      unless it is 0, the image is not harmless. */
  lemma {:induction false} SegmentByteShows(device: Device, lay: Layout, log: seq<Xfer>, lines: seq<string>, q: nat)
    returns (k: nat)
    requires Sized(Segments(lines)) && PutImage(device, lay, log, lines).1 >= 0
    requires q < |Encoded(Segments(lines))| && Wrap16(lay.start + q) == 0
    ensures var t := PutImage(device, lay, log, lines).0;
            && |log| <= k && k + 2 <= |t.log| && ByteAt(t.log[..k], EEPROM, 0) == Some(Encoded(Segments(lines))[q])
    ensures Encoded(Segments(lines))[q] != 0 ==> !HarmlessFile(lay, lines)
  {
    var segs, s := Segments(lines), State(Eeprom(lay.start, false), log);
    ResetIsLast(device, lay, log, lines);
    k := SegmentShows(device, lay.chip, s, lay.start, segs, q);
    assert PutImage(device, lay, log, lines).0.log[..k] == PokeAll(device, lay.chip, s, segs).0.log[..k];
    assert Image(segs, lay.chip)[q] == Encoded(segs)[q];
  }

  /** The two requests of the reset record come after all the segments. */
  lemma {:induction false} ResetIsLast(device: Device, lay: Layout, log: seq<Xfer>, lines: seq<string>)
    requires PutImage(device, lay, log, lines).1 >= 0
    ensures var t := PokeAll(device, lay.chip, State(Eeprom(lay.start, false), log), Segments(lines)).0;
            && t.log <= PutImage(device, lay, log, lines).0.log
            && |PutImage(device, lay, log, lines).0.log| == |t.log| + 2
  {
    PokeAllStaysEeprom(device, lay.chip, State(Eeprom(lay.start, false), log), Segments(lines));
  }

  lemma {:induction false} UnbootableOn(a: seq<Xfer>, b: seq<Xfer>, n: nat)
    requires n <= |a| && StaysUnbootable(a, n) && Extends(a, b, 7, 0x1_0000)
    ensures StaysUnbootable(b, n)
  {
    forall k | n <= k <= |b| ensures ByteAt(b[..k], EEPROM, 0) == Some(0) {
      if k <= |a| { assert b[..k] == a[..k]; } else { assert a[..|a|] == a; PrefixKept(a, b, 7, k); }
    }
  }

  /** The configuration bytes are not the boot byte. */
  lemma {:induction false} ConfigExtends(device: Device, lay: Layout, log: seq<Xfer>)
    ensures Extends(log, PutConfig(device, log, lay).0, 7, 0x1_0000)
    ensures Extends(log, PutReserved(device, log, lay).0, 7, 0x1_0000)
  {
    if lay.config.Some? { PutByteHolds(device, log, 7, lay.config.value); }
    PutByteHolds(device, log, 8, 0);
  }

  lemma {:induction false} PrepareStaysUnbootable(device: Device, lay: Layout, log: seq<Xfer>, lines: seq<string>)
    requires HarmlessFile(lay, lines) && ByteAt(log, EEPROM, 0) == Some(0)
    ensures StaysUnbootable(Prepare(device, lay, log, lines).0.log, |log|)
  {
    HarmlessStaysUnbootable(device, lay, log, lines);
    PutImageLonger(device, lay, log, lines);
    var (s, rc) := PutImage(device, lay, log, lines);
    if rc >= 0 {
      var (log1, ok1) := PutConfig(device, s.log, lay);
      ConfigExtends(device, lay, s.log);
      UnbootableOn(s.log, log1, |log|);
      if ok1 {
        ConfigExtends(device, lay, log1);
        UnbootableOn(log1, PutReserved(device, log1, lay).0, |log|);
      }
    }
  }

  lemma {:induction false} PutImageLonger(device: Device, lay: Layout, log: seq<Xfer>, lines: seq<string>)
    ensures log <= PutImage(device, lay, log, lines).0.log
  {
    SegmentsInRange(lines);
    var m := ImageSpells(device, lay, log, lines);
  }

  lemma {:induction false} PrepareLonger(device: Device, lay: Layout, log: seq<Xfer>, lines: seq<string>)
    ensures PutImage(device, lay, log, lines).0.log <= Prepare(device, lay, log, lines).0.log
  {
    var s := PutImage(device, lay, log, lines).0;
    ConfigExtends(device, lay, s.log);
    ConfigExtends(device, lay, PutConfig(device, s.log, lay).0);
  }

  /** For every supported chip type, every device and every file: during a burn that succeeds byte 0 is 0 after
      each request from the first to the last but one if and only if every byte of the image that falls on
      address 0, counting round, is 0, as is the case for an image that fits. */
  lemma {:induction false} UnbootableUntilLastIff(device: Device, kind: string, config: bv8, log: seq<Xfer>, lines: seq<string>)
    requires LayoutOf(kind, config).Some? && Burn(device, LayoutOf(kind, config).value, log, lines).1 == 0
    ensures var lay := LayoutOf(kind, config).value;
            var after := Burn(device, lay, log, lines).0.log;
            (forall k :: |log| < k < |after| ==> ByteAt(after[..k], EEPROM, 0) == Some(0)) <==> HarmlessFile(lay, lines)
    ensures var lay := LayoutOf(kind, config).value; Fits(lay, lines) ==> HarmlessFile(lay, lines)
  {
    var lay := LayoutOf(kind, config).value;
    if Fits(lay, lines) { FittingIsHarmless(lay, lines); }
    var log1 := PutByte(device, log, 0, 0).0;
    PutByteHolds(device, log, 0, 0);
    var before := Prepare(device, lay, log1, lines).0.log;
    var after := Burn(device, lay, log, lines).0.log;
    assert forall k :: 0 <= k < |after| ==> after[..k] == before[..k];
    if HarmlessFile(lay, lines) {
      PrepareStaysUnbootable(device, lay, log1, lines);
    } else {
      UnbootableIffHarmless(device, lay, log1, lines);
      PrepareLonger(device, lay, log1, lines);
      var image := PutImage(device, lay, log1, lines).0.log;
      var k :| |log1| <= k <= |image| && ByteAt(image[..k], EEPROM, 0) != Some(0);
      assert after[..k] == image[..k];
    }
  }
}
