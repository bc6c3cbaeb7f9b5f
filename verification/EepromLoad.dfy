// Writing an Intel HEX file into the boot EEPROM (ezusb_load_eeprom).
module EepromLoad {
  import opened Common
  import opened Ihex
  import opened EzUsb

  // ---------------------------------------------------------------------
  // The program
  // ---------------------------------------------------------------------

  /** What depends on the controller type: memory map, boot byte, first free address, and which
      configuration bytes follow the boot byte. */
  datatype Layout = Layout(chip: Chip, firstByte: Byte, start: Addr16, config: Option<Byte>, reserved: bool)

  /** The boot byte is not 0, and the image starts behind the bytes that are set aside. */
  ghost predicate Proper(lay: Layout) {
    && 7 <= lay.start < 10 && lay.firstByte != 0
    && (lay.config.Some? ==> 8 <= lay.start)
    && (lay.reserved ==> 9 <= lay.start)
  }

  function LayoutOf(kind: string, config: bv8): (r: Option<Layout>)
    ensures r.Some? ==> Proper(r.value)
  {
    if kind == "fx2" then Some(Layout(Fx2, 0xC2, 8, Some((config & 0x4f) as int), false))
    else if kind == "fx2lp" then Some(Layout(Fx2lp, 0xC2, 8, Some((config & 0x4f) as int), false))
    else if kind == "fx" then Some(Layout(Fx, 0xB6, 9, Some((config & 0x07) as int), true))
    else if kind == "an21" then Some(Layout(Fx, 0xB2, 7, None, false))
    else None
  }

  /** What the layouts are: four types are known; the image starts behind the bytes of the header that the type has;
      of the configuration only the bits the type knows are written; and only the FX2 family has the other map. */
  lemma {:induction false} LayoutsAre(kind: string, config: bv8)
    ensures LayoutOf(kind, config).Some? <==> kind in {"fx2", "fx2lp", "fx", "an21"}
    ensures LayoutOf(kind, config).Some? ==>
              var lay := LayoutOf(kind, config).value;
              && lay.start == 7 + (if lay.config.Some? then 1 else 0) + (if lay.reserved then 1 else 0)
              && (lay.config.None? <==> kind == "an21") && (lay.reserved <==> kind == "fx")
              && (lay.chip == Fx <==> kind in {"fx", "an21"}) && (lay.chip == Fx2lp <==> kind == "fx2lp")
              && lay.firstByte == (if lay.chip != Fx then 0xC2 else if lay.reserved then 0xB6 else 0xB2)
              && (lay.config.Some? ==>
                    var kept: bv8 := lay.config.value as bv8;
                    kept == if lay.reserved then config & 0x07 else config & 0x4f)
  {}

  /** One single-byte EEPROM write; the flag tells whether it succeeded. */
  function PutByte(device: Device, log: seq<Xfer>, at: Addr16, value: Byte): (seq<Xfer>, bool) {
    (Issue(device, log, Request(RwEeprom, at, [value])), device(|log|).Done?)
  }

  function PutConfig(device: Device, log: seq<Xfer>, lay: Layout): (seq<Xfer>, bool) {
    if lay.config.Some? then PutByte(device, log, 7, lay.config.value) else (log, true)
  }

  function PutReserved(device: Device, log: seq<Xfer>, lay: Layout): (seq<Xfer>, bool) {
    if lay.reserved then PutByte(device, log, 8, 0) else (log, true)
  }

  /** The image proper: the segments of the file, then the reset record marked as the last one. */
  function PutImage(device: Device, lay: Layout, log: seq<Xfer>, lines: seq<string>): (State, int) {
    var (s1, status) := Parsed(device, lay.chip, State(Eeprom(lay.start, false), log), lines);
    if status < 0 || !s1.ctx.Eeprom? then (s1, status)
    else EepromPoked(device, s1.(ctx := s1.ctx.(last := true)), CpucsAddr(lay.chip), false, [0])
  }

  /** Everything between the two writes of byte 0. */
  function Prepare(device: Device, lay: Layout, log: seq<Xfer>, lines: seq<string>): (State, int) {
    var (s, rc) := PutImage(device, lay, log, lines);
    if rc < 0 then (s, rc)
    else
      var (log1, ok1) := PutConfig(device, s.log, lay);
      if !ok1 then (s.(log := log1), -1)
      else
        var (log2, ok2) := PutReserved(device, log1, lay);
        (s.(log := log2), if ok2 then 0 else -1)
  }

  /** Mark unbootable, prepare, mark bootable. */
  function Burn(device: Device, lay: Layout, log: seq<Xfer>, lines: seq<string>): (State, int) {
    var (log1, ok1) := PutByte(device, log, 0, 0);
    if !ok1 then (State(Eeprom(lay.start, false), log1), -1)
    else
      var (s, rc) := Prepare(device, lay, log1, lines);
      if rc < 0 then (s, rc)
      else
        var (log2, ok2) := PutByte(device, s.log, 0, lay.firstByte);
        (s.(log := log2), if ok2 then 0 else -1)
  }

  /** (sizeStatus, sizeValue) is the answer to the EEPROM size request; `image` is None when the
      file cannot be opened. */
  method LoadEeprom(loader: Loader, sizeStatus: int, sizeValue: Byte, image: Option<string>, kind: string, config: bv8)
    returns (status: int)
    modifies loader
    ensures Refusal(sizeStatus, sizeValue, image, kind, config) < 0 ==>
              status == Refusal(sizeStatus, sizeValue, image, kind, config) && loader.Now() == old(loader.Now())
    ensures Refusal(sizeStatus, sizeValue, image, kind, config) >= 0 ==>
              (loader.Now(), status)
              == Burn(loader.device, LayoutOf(kind, config).value, old(loader.log), Gets(image.value))
  {
    if sizeStatus != 1 || sizeValue != 1 { return -1; }
    if image.None? { return -2; }
    var layout := LayoutOf(kind, config);
    if layout.None? { return -1; }
    var lay := layout.value;
    loader.ctx := Eeprom(lay.start, false);
    var answer := loader.Write(RwEeprom, 0, [0]);
    if answer.Failed? { return -1; }
    ghost var s := loader.Now();
    status := loader.ParseIhex(lay.chip, image.value);
    if status < 0 { return; }
    ParsedStaysEeprom(loader.device, lay.chip, s, Gets(image.value));
    loader.ctx := loader.ctx.(last := true);
    status := loader.EepromPoke(CpucsAddr(lay.chip), false, [0]);
    if status < 0 { return; }
    if lay.config.Some? {
      answer := loader.Write(RwEeprom, 7, [lay.config.value]);
      if answer.Failed? { return -1; }
    }
    if lay.reserved {
      answer := loader.Write(RwEeprom, 8, [0]);
      if answer.Failed? { return -1; }
    }
    answer := loader.Write(RwEeprom, 0, [lay.firstByte]);
    if answer.Failed? { return -1; }
    status := 0;
  }

  /** The status with which a load is refused before anything is written, or 0. */
  function Refusal(sizeStatus: int, sizeValue: Byte, image: Option<string>, kind: string, config: bv8): (r: int)
    ensures r >= 0 ==> image.Some? && LayoutOf(kind, config).Some?
  {
    if sizeStatus != 1 || sizeValue != 1 then -1
    else if image.None? then -2
    else if LayoutOf(kind, config).None? then -1
    else 0
  }

  lemma {:induction false} PokeAllStaysEeprom(device: Device, chip: Chip, s: State, segs: seq<Block>)
    requires s.ctx.Eeprom?
    ensures var t := PokeAll(device, chip, s, segs).0.ctx; t.Eeprom? && t.last == s.ctx.last
    decreases |segs|
  {
    if segs != [] {
      PokeAllStaysEeprom(device, chip, s, segs[..|segs| - 1]);
    }
  }

  lemma {:induction false} ParsedStaysEeprom(device: Device, chip: Chip, s: State, lines: seq<string>)
    requires s.ctx.Eeprom?
    ensures var t := Parsed(device, chip, s, lines).0.ctx; t.Eeprom? && t.last == s.ctx.last
  {
    PokeAllStaysEeprom(device, chip, s, Segments(lines));
  }

  // ---------------------------------------------------------------------
  // The image and the boot walk that reads it
  // ---------------------------------------------------------------------

  ghost predicate Sized(segs: seq<Block>) {
    forall k :: 0 <= k < |segs| ==> 1 <= |segs[k].data| <= MAX_SEGMENT
  }

  ghost function Encode(b: Block, last: bool): seq<Byte>
    requires |b.data| <= MAX_SEGMENT
  {
    Header(b.addr, |b.data|, last) + b.data
  }

  ghost function Encoded(segs: seq<Block>): seq<Byte>
    requires Sized(segs)
  {
    if segs == [] then [] else Encoded(segs[..|segs| - 1]) + Encode(segs[|segs| - 1], false)
  }

  /** The segments, then the CPU reset. */
  ghost function Image(segs: seq<Block>, chip: Chip): seq<Byte>
    requires Sized(segs)
  {
    Encoded(segs) + Encode(Block(CpucsAddr(chip), [0]), true)
  }

  /** The image ends inside the 64K that two-byte EEPROM addresses reach. */
  ghost predicate Fits(lay: Layout, lines: seq<string>) {
    SegmentsInRange(lines);
    lay.start + |Image(Segments(lines), lay.chip)| <= 0x1_0000
  }

  function Word(hi: int, lo: int): int { 256 * hi + lo }

  /** How the chip boots: read a header, take its data, go on behind it until a header is marked
      last. None when the walk leaves the memory. */
  ghost function Walk(rom: seq<Byte>, p: nat): Option<seq<Block>>
    decreases |rom| - p
  {
    if p + 4 > |rom| then None
    else
      var len := Word(rom[p] % 0x80, rom[p + 1]);
      if p + 4 + len > |rom| then None
      else
        var b := Block(Word(rom[p + 2], rom[p + 3]), rom[p + 4..p + 4 + len]);
        if rom[p] >= 0x80 then Some([b])
        else
          var rest := Walk(rom, p + 4 + len);
          if rest.None? then None else Some([b] + rest.value)
  }

  /** The memory reads as `bytes` from p on. */
  ghost predicate Reads(rom: seq<Byte>, p: nat, bytes: seq<Byte>) {
    p + |bytes| <= |rom| && forall i :: 0 <= i < |bytes| ==> rom[p + i] == bytes[i]
  }

  lemma {:induction false} ReadsSplit(rom: seq<Byte>, p: nat, a: seq<Byte>, b: seq<Byte>)
    requires Reads(rom, p, a + b)
    ensures Reads(rom, p, a) && Reads(rom, p + |a|, b)
  {
    forall i | 0 <= i < |a|
      ensures rom[p + i] == a[i]
    {
      assert rom[p + i] == (a + b)[i];
    }
    forall i | 0 <= i < |b|
      ensures rom[p + |a| + i] == b[i]
    {
      assert rom[p + (|a| + i)] == (a + b)[|a| + i];
    }
  }

  lemma {:induction false} HeaderFields(addr: Addr16, len: nat, last: bool)
    requires len <= MAX_SEGMENT
    ensures var h := Header(addr, len, last);
            Word(h[0] % 0x80, h[1]) == len && Word(h[2], h[3]) == addr && (h[0] >= 0x80 <==> last)
  {}

  lemma {:induction false} WalkOne(rom: seq<Byte>, p: nat, b: Block, last: bool)
    requires |b.data| <= MAX_SEGMENT && Reads(rom, p, Encode(b, last))
    ensures last ==> Walk(rom, p) == Some([b])
    ensures !last ==> var rest := Walk(rom, p + 4 + |b.data|);
                      Walk(rom, p) == if rest.None? then None else Some([b] + rest.value)
  {
    var header := Header(b.addr, |b.data|, last);
    ReadsSplit(rom, p, header, b.data);
    HeaderFields(b.addr, |b.data|, last);
    assert rom[p + 0] == header[0] && rom[p + 1] == header[1] && rom[p + 2] == header[2] && rom[p + 3] == header[3];
    assert rom[p + 4..p + 4 + |b.data|] == b.data;
  }

  lemma {:induction false} WalkOn(rom: seq<Byte>, p: nat, b: Block, tail: seq<Block>)
    requires |b.data| <= MAX_SEGMENT && Reads(rom, p, Encode(b, false))
    requires Walk(rom, p + 4 + |b.data|) == Some(tail)
    ensures Walk(rom, p) == Some([b] + tail)
  {
    WalkOne(rom, p, b, false);
  }

  lemma {:induction false} Regroup(segs: seq<Block>, tail: seq<Block>)
    requires segs != []
    ensures segs[..|segs| - 1] + ([segs[|segs| - 1]] + tail) == segs + tail
  {}

  lemma {:induction false} EncodedSnoc(segs: seq<Block>)
    requires Sized(segs) && segs != []
    ensures Encoded(segs) == Encoded(segs[..|segs| - 1]) + Encode(segs[|segs| - 1], false)
    ensures |Encode(segs[|segs| - 1], false)| == 4 + |segs[|segs| - 1].data|
  {}

  /** Segments laid end to end are walked in order. */
  lemma {:induction false} WalkSegments(rom: seq<Byte>, p: nat, segs: seq<Block>, tail: seq<Block>)
    requires Sized(segs) && Reads(rom, p, Encoded(segs))
    requires Walk(rom, p + |Encoded(segs)|) == Some(tail)
    ensures Walk(rom, p) == Some(segs + tail)
    decreases |segs|
  {
    if segs == [] {
      assert segs + tail == tail;
    } else {
      var front, b := segs[..|segs| - 1], segs[|segs| - 1];
      EncodedSnoc(segs);
      ReadsSplit(rom, p, Encoded(front), Encode(b, false));
      WalkOn(rom, p + |Encoded(front)|, b, tail);
      WalkSegments(rom, p, front, [b] + tail);
      Regroup(segs, tail);
    }
  }

  /** Booting from a memory that holds the image decodes exactly the file's segments and then
      the one-byte write that resets the CPU. */
  lemma {:induction false} WalkImage(rom: seq<Byte>, start: nat, segs: seq<Block>, chip: Chip)
    requires Sized(segs) && Reads(rom, start, Image(segs, chip))
    ensures Walk(rom, start) == Some(segs + [Block(CpucsAddr(chip), [0])])
  {
    var reset := Block(CpucsAddr(chip), [0]);
    ReadsSplit(rom, start, Encoded(segs), Encode(reset, true));
    WalkOne(rom, start + |Encoded(segs)|, reset, true);
    WalkSegments(rom, start, segs, [reset]);
  }

  // ---------------------------------------------------------------------
  // What the writes leave in the EEPROM
  // ---------------------------------------------------------------------

  const EEPROM: set<Op> := {RwEeprom}

  ghost predicate Holds(log: seq<Xfer>, at: nat, bytes: seq<Byte>) {
    && at + |bytes| <= 0x1_0000
    && forall i :: 0 <= i < |bytes| ==> ByteAt(log, EEPROM, at + i) == Some(bytes[i])
  }

  /** A request that writes only addresses from lo up to hi. */
  ghost predicate Inside(r: Request, lo: nat, hi: nat) {
    r.op == RwEeprom && lo <= r.addr && r.addr + |r.data| <= hi
  }

  /** log' extends log by requests inside [lo, hi). */
  ghost predicate Extends(log: seq<Xfer>, log': seq<Xfer>, lo: nat, hi: nat) {
    log <= log' && forall k :: |log| <= k < |log'| ==> Inside(log'[k].request, lo, hi)
  }

  lemma {:induction false} OutsideUntouched(r: Request, lo: nat, hi: nat, a: Addr16)
    requires Inside(r, lo, hi) && hi <= 0x1_0000 && (a < lo || hi <= a)
    ensures OffsetOf(r, a) >= |r.data|
  {}

  lemma {:induction false} ByteKept(log: seq<Xfer>, log': seq<Xfer>, lo: nat, hi: nat, a: Addr16)
    requires Extends(log, log', lo, hi) && hi <= 0x1_0000 && (a < lo || hi <= a)
    ensures ByteAt(log', EEPROM, a) == ByteAt(log, EEPROM, a)
  {
    forall k | |log| <= k < |log'|
      ensures OffsetOf(log'[k].request, a) >= |log'[k].request.data|
    {
      OutsideUntouched(log'[k].request, lo, hi, a);
    }
    ByteAtUntouched(log', EEPROM, a, |log|);
    assert log'[..|log|] == log;
  }

  lemma {:induction false} HeldBytesKept(log: seq<Xfer>, log': seq<Xfer>, lo: nat, hi: nat, at: nat, bytes: seq<Byte>)
    requires Holds(log, at, bytes) && Extends(log, log', lo, hi) && hi <= 0x1_0000
    requires at + |bytes| <= lo || hi <= at
    ensures Holds(log', at, bytes)
  {
    forall i | 0 <= i < |bytes|
      ensures ByteAt(log', EEPROM, at + i) == Some(bytes[i])
    {
      ByteKept(log, log', lo, hi, at + i);
    }
  }

  lemma {:induction false} IssueHolds(device: Device, log: seq<Xfer>, r: Request)
    requires r.op == RwEeprom && r.addr + |r.data| <= 0x1_0000
    ensures Extends(log, Issue(device, log, r), r.addr, r.addr + |r.data|)
    ensures device(|log|).Done? ==> Holds(Issue(device, log, r), r.addr, r.data)
  {
    var log' := Issue(device, log, r);
    if device(|log|).Done? {
      forall i | 0 <= i < |r.data|
        ensures ByteAt(log', EEPROM, r.addr + i) == Some(r.data[i])
      {
        assert OffsetOf(r, r.addr + i) == i;
        assert log'[|log'| - 1] == Xfer(r, device(|log|));
      }
    }
  }

  lemma {:induction false} ExtendsThen(a: seq<Xfer>, b: seq<Xfer>, c: seq<Xfer>, lo: nat, mid: nat, mid': nat, hi: nat)
    requires Extends(a, b, lo, mid) && Extends(b, c, mid', hi) && lo <= mid' && mid <= hi
    ensures Extends(a, c, lo, hi)
  {
    forall k | |a| <= k < |c|
      ensures Inside(c[k].request, lo, hi)
    {
      if k < |b| {
        assert c[k] == b[k];
      }
    }
  }

  lemma {:induction false} HoldsConcat(log: seq<Xfer>, at: nat, a: seq<Byte>, b: seq<Byte>)
    requires Holds(log, at, a) && Holds(log, at + |a|, b)
    ensures Holds(log, at, a + b)
  {
    forall i | 0 <= i < |a + b|
      ensures ByteAt(log, EEPROM, at + i) == Some((a + b)[i])
    {
      if i >= |a| {
        assert ByteAt(log, EEPROM, at + |a| + (i - |a|)) == Some(b[i - |a|]);
      }
    }
  }

  /** Bytes written right behind others join them. */
  lemma {:induction false} HoldsThen(log: seq<Xfer>, log': seq<Xfer>, at: nat, a: seq<Byte>, b: seq<Byte>, hi: nat)
    requires Holds(log, at, a) && Extends(log, log', at + |a|, hi) && hi <= 0x1_0000
    requires Holds(log', at + |a|, b)
    ensures Holds(log', at, a + b)
  {
    HeldBytesKept(log, log', at + |a|, hi, at, a);
    HoldsConcat(log', at, a, b);
  }

  lemma {:induction false} PokedBytesExtend(device: Device, s: State, b: Block, external: bool)
    requires s.ctx.Eeprom? && 1 <= |b.data| <= MAX_SEGMENT && s.ctx.eeAddr + 4 + |b.data| <= 0x1_0000
    ensures Extends(s.log, EepromPoked(device, s, b.addr, external, b.data).0.log,
                    s.ctx.eeAddr, s.ctx.eeAddr + 4 + |b.data|)
  {}

  /** One segment: its header and data land end to end at the free address. */
  lemma {:induction false} PokedBytesHold(device: Device, s: State, b: Block)
    requires s.ctx.Eeprom? && 1 <= |b.data| <= MAX_SEGMENT && s.ctx.eeAddr + 4 + |b.data| <= 0x1_0000
    requires EepromPoked(device, s, b.addr, false, b.data).1 >= 0
    ensures var t := EepromPoked(device, s, b.addr, false, b.data).0;
            && Holds(t.log, s.ctx.eeAddr, Encode(b, s.ctx.last))
            && t.ctx == Eeprom(Wrap16(s.ctx.eeAddr + 4 + |b.data|), s.ctx.last)
  {
    assert Wrap16(s.ctx.eeAddr + 4) == s.ctx.eeAddr + 4;
    TwoWrites(device, s.log, s.ctx.eeAddr, Header(b.addr, |b.data|, s.ctx.last), b.data);
  }

  lemma {:induction false} TwoWrites(device: Device, log: seq<Xfer>, at: Addr16, first: seq<Byte>, second: seq<Byte>)
    requires second != [] && at + |first| + |second| <= 0x1_0000
    requires var log1 := Issue(device, log, Request(RwEeprom, at, first));
             device(|log|).Done? && device(|log1|).Done?
    ensures var log1 := Issue(device, log, Request(RwEeprom, at, first));
            Holds(Issue(device, log1, Request(RwEeprom, at + |first|, second)), at, first + second)
  {
    var r1, r2 := Request(RwEeprom, at, first), Request(RwEeprom, at + |first|, second);
    var log1 := Issue(device, log, r1);
    var log2 := Issue(device, log1, r2);
    IssueHolds(device, log, r1);
    IssueHolds(device, log1, r2);
    HoldsThen(log1, log2, at, first, second, at + |first| + |second|);
  }

  /** One more segment behind those already packed. */
  lemma {:induction false} PackedNext(device: Device, chip: Chip, log: seq<Xfer>, s: State, at: nat, bytes: seq<Byte>, b: Block)
    requires 1 <= |b.data| <= MAX_SEGMENT && at + |bytes| + 4 + |b.data| < 0x1_0000
    requires s.ctx == Eeprom(at + |bytes|, false)
    requires Extends(log, s.log, at, at + |bytes|)
    ensures Extends(log, PokeBlock(device, chip, s, b).0.log, at, at + |bytes| + 4 + |b.data|)
  {
    var mid := at + |bytes|;
    PokedBytesExtend(device, s, b, IsExternal(chip, b.addr, |b.data|));
    ExtendsThen(log, s.log, PokeBlock(device, chip, s, b).0.log, at, mid, mid, mid + 4 + |b.data|);
  }

  lemma {:induction false} PackedNextHolds(device: Device, chip: Chip, s: State, at: nat, bytes: seq<Byte>, b: Block)
    requires 1 <= |b.data| <= MAX_SEGMENT && at + |bytes| + 4 + |b.data| < 0x1_0000
    requires s.ctx == Eeprom(at + |bytes|, false)
    requires Holds(s.log, at, bytes) && PokeBlock(device, chip, s, b).1 >= 0
    ensures var t := PokeBlock(device, chip, s, b).0;
            && Holds(t.log, at, bytes + Encode(b, false))
            && t.ctx == Eeprom(at + |bytes| + 4 + |b.data|, false)
  {
    PokedBytesExtend(device, s, b, false);
    PokedBytesHold(device, s, b);
    HoldsThen(s.log, PokeBlock(device, chip, s, b).0.log, at, bytes, Encode(b, false), at + |bytes| + 4 + |b.data|);
  }

  lemma {:induction false} ExtendsWider(a: seq<Xfer>, b: seq<Xfer>, lo: nat, hi: nat, hi': nat)
    requires Extends(a, b, lo, hi) && hi <= hi'
    ensures Extends(a, b, lo, hi')
  {}

  /** All segments of a file are packed end to end from the free address on. */
  lemma {:induction false} PokedImage(device: Device, chip: Chip, s: State, segs: seq<Block>)
    requires s.ctx.Eeprom? && !s.ctx.last && Sized(segs)
    requires s.ctx.eeAddr + |Encoded(segs)| < 0x1_0000
    ensures var (t, ok) := PokeAll(device, chip, s, segs);
            && Extends(s.log, t.log, s.ctx.eeAddr, s.ctx.eeAddr + |Encoded(segs)|)
            && (ok ==> Holds(t.log, s.ctx.eeAddr, Encoded(segs))
                       && t.ctx == Eeprom(s.ctx.eeAddr + |Encoded(segs)|, false))
    decreases |segs|
  {
    if segs != [] {
      var front, b := segs[..|segs| - 1], segs[|segs| - 1];
      EncodedSnoc(segs);
      PokedImage(device, chip, s, front);
      var (s1, ok1) := PokeAll(device, chip, s, front);
      if ok1 {
        PackedNext(device, chip, s.log, s1, s.ctx.eeAddr, Encoded(front), b);
        if PokeBlock(device, chip, s1, b).1 >= 0 {
          PackedNextHolds(device, chip, s1, s.ctx.eeAddr, Encoded(front), b);
        }
      } else {
        ExtendsWider(s.log, s1.log, s.ctx.eeAddr, s.ctx.eeAddr + |Encoded(front)|, s.ctx.eeAddr + |Encoded(segs)|);
      }
    }
  }

  /** The reset record goes right behind the segments. */
  lemma {:induction false} ResetPoked(device: Device, chip: Chip, s: State, at: nat, bytes: seq<Byte>)
    requires at + |bytes| + 5 <= 0x1_0000 && s.ctx == Eeprom(at + |bytes|, true) && Holds(s.log, at, bytes)
    ensures var (t, rc) := EepromPoked(device, s, CpucsAddr(chip), false, [0]);
            && Extends(s.log, t.log, at + |bytes|, at + |bytes| + 5)
            && (rc >= 0 ==> Holds(t.log, at, bytes + Encode(Block(CpucsAddr(chip), [0]), true)))
  {
    var reset := Block(CpucsAddr(chip), [0]);
    var (t, rc) := EepromPoked(device, s, reset.addr, false, reset.data);
    var mid := at + |bytes|;
    PokedBytesExtend(device, s, reset, false);
    if rc >= 0 {
      PokedBytesHold(device, s, reset);
      var encoded := Encode(reset, true);
      HoldsThen(s.log, t.log, at, bytes, encoded, mid + 5);
    }
  }

  /** The image with its reset record, or part of it when a write fails. */
  lemma {:induction false} PutImageHolds(device: Device, lay: Layout, log: seq<Xfer>, lines: seq<string>)
    requires Sized(Segments(lines)) && lay.start + |Image(Segments(lines), lay.chip)| <= 0x1_0000
    ensures var (t, rc) := PutImage(device, lay, log, lines);
            && Extends(log, t.log, lay.start, 0x1_0000)
            && (rc >= 0 ==> Holds(t.log, lay.start, Image(Segments(lines), lay.chip)))
  {
    var segs, s := Segments(lines), State(Eeprom(lay.start, false), log);
    PokedImage(device, lay.chip, s, segs);
    var (s1, ok) := PokeAll(device, lay.chip, s, segs);
    var mid := lay.start + |Encoded(segs)|;
    ExtendsThen(log, log, s1.log, lay.start, lay.start, lay.start, 0x1_0000);
    if ok {
      var s2 := State(Eeprom(mid, true), s1.log);
      ResetPoked(device, lay.chip, s2, lay.start, Encoded(segs));
      ExtendsThen(log, s1.log, EepromPoked(device, s2, CpucsAddr(lay.chip), false, [0]).0.log,
                  lay.start, mid, mid, 0x1_0000);
    } else {
      PokeAllStaysEeprom(device, lay.chip, s, segs);
    }
  }

  // ---------------------------------------------------------------------
  // Never bootable half-written
  // ---------------------------------------------------------------------

  /** Everything a boot needs, the boot byte aside. */
  ghost predicate InPlace(log: seq<Xfer>, lay: Layout, lines: seq<string>)
    requires Sized(Segments(lines))
  {
    && Holds(log, lay.start, Image(Segments(lines), lay.chip))
    && (lay.config.Some? ==> ByteAt(log, EEPROM, 7) == lay.config)
    && (lay.reserved ==> ByteAt(log, EEPROM, 8) == Some(0))
  }

  lemma {:induction false} PutByteHolds(device: Device, log: seq<Xfer>, at: Addr16, value: Byte)
    ensures Extends(log, PutByte(device, log, at, value).0, at, at + 1)
    ensures PutByte(device, log, at, value).1 ==> ByteAt(PutByte(device, log, at, value).0, EEPROM, at) == Some(value)
  {
    IssueHolds(device, log, Request(RwEeprom, at, [value]));
    if PutByte(device, log, at, value).1 {
      assert ByteAt(PutByte(device, log, at, value).0, EEPROM, at + 0) == Some([value][0]);
    }
  }

  /** A one-byte write in front of the image leaves the image and the other bytes alone. */
  lemma {:induction false} PutByteKeeps(device: Device, log: seq<Xfer>, at: Addr16, value: Byte, start: nat, image: seq<Byte>, a: Addr16)
    requires at < start && Holds(log, start, image) && a != at
    ensures var log' := PutByte(device, log, at, value).0;
            Holds(log', start, image) && ByteAt(log', EEPROM, a) == ByteAt(log, EEPROM, a)
  {
    var log' := PutByte(device, log, at, value).0;
    PutByteHolds(device, log, at, value);
    HeldBytesKept(log, log', at, at + 1, start, image);
    ByteKept(log, log', at, at + 1, a);
  }

  /** Until the boot byte, nothing below address 7 is written; when all goes well everything but
      the boot byte is in place. */
  lemma {:induction false} PrepareHolds(device: Device, lay: Layout, log: seq<Xfer>, lines: seq<string>)
    requires Proper(lay) && Sized(Segments(lines)) && lay.start + |Image(Segments(lines), lay.chip)| <= 0x1_0000
    ensures var (t, rc) := Prepare(device, lay, log, lines);
            && Extends(log, t.log, 7, 0x1_0000)
            && (rc >= 0 ==> InPlace(t.log, lay, lines))
  {
    PutImageHolds(device, lay, log, lines);
    var (s, rc) := PutImage(device, lay, log, lines);
    ExtendsThen(log, log, s.log, 7, 7, lay.start, 0x1_0000);
    if rc >= 0 {
      var image := Image(Segments(lines), lay.chip);
      var (log1, ok1) := PutConfig(device, s.log, lay);
      if lay.config.Some? {
        PutByteHolds(device, s.log, 7, lay.config.value);
        PutByteKeeps(device, s.log, 7, lay.config.value, lay.start, image, 8);
        ExtendsWider(s.log, log1, 7, 8, 0x1_0000);
        ExtendsThen(log, s.log, log1, 7, 0x1_0000, 7, 0x1_0000);
      }
      if ok1 && lay.reserved {
        PutByteHolds(device, log1, 8, 0);
        PutByteKeeps(device, log1, 8, 0, lay.start, image, 7);
        ExtendsWider(log1, PutReserved(device, log1, lay).0, 8, 9, 0x1_0000);
        ExtendsThen(log, log1, PutReserved(device, log1, lay).0, 7, 0x1_0000, 8, 0x1_0000);
      }
    }
  }

  lemma {:induction false} PrefixKept(a: seq<Xfer>, b: seq<Xfer>, lo: nat, k: nat)
    requires Extends(a, b, lo, 0x1_0000) && |a| <= k <= |b| && lo > 0
    ensures ByteAt(b[..k], EEPROM, 0) == ByteAt(a, EEPROM, 0)
  {
    assert Extends(a, b[..k], lo, 0x1_0000);
    ByteKept(a, b[..k], lo, 0x1_0000, 0);
  }

  lemma {:induction false} UnbootableAt(device: Device, lay: Layout, log: seq<Xfer>, lines: seq<string>, k: nat)
    requires Proper(lay) && Fits(lay, lines) && device(|log|).Done?
    requires |log| < k <= |Burn(device, lay, log, lines).0.log|
    ensures Sized(Segments(lines))
    ensures var after := Burn(device, lay, log, lines).0.log;
            || ByteAt(after[..k], EEPROM, 0) == Some(0)
            || (k == |after| && after[k - 1].request == Request(RwEeprom, 0, [lay.firstByte])
                && InPlace(after[..k - 1], lay, lines))
  {
    SegmentsInRange(lines);
    var (log1, ok1) := PutByte(device, log, 0, 0);
    PutByteHolds(device, log, 0, 0);
    PrepareHolds(device, lay, log1, lines);
    var (s, rc) := Prepare(device, lay, log1, lines);
    var after := Burn(device, lay, log, lines).0.log;
    if k <= |s.log| {
      assert after[..k] == s.log[..k];
      PrefixKept(log1, s.log, 7, k);
    } else {
      assert after[..k - 1] == s.log;
    }
  }

  /** The load as it stands after k requests. Once the first write has marked the EEPROM unbootable,
      byte 0 stays 0 through every failure and every state, until the boot byte itself is sent as
      the very last request; and it is sent only when everything else is in place. */
  lemma {:induction false} NeverBootableHalfWritten(device: Device, kind: string, config: bv8, log: seq<Xfer>,
                                                    lines: seq<string>, k: nat)
    requires LayoutOf(kind, config).Some? && Fits(LayoutOf(kind, config).value, lines) && device(|log|).Done?
    requires |log| < k <= |Burn(device, LayoutOf(kind, config).value, log, lines).0.log|
    ensures Sized(Segments(lines))
    ensures var lay := LayoutOf(kind, config).value;
            var after := Burn(device, lay, log, lines).0.log;
            || ByteAt(after[..k], EEPROM, 0) == Some(0)
            || (k == |after| && after[k - 1].request == Request(RwEeprom, 0, [lay.firstByte])
                && InPlace(after[..k - 1], lay, lines))
  {
    UnbootableAt(device, LayoutOf(kind, config).value, log, lines, k);
  }

  lemma {:induction false} BurnSucceeds(device: Device, lay: Layout, log: seq<Xfer>, lines: seq<string>)
    requires Proper(lay) && Fits(lay, lines) && Burn(device, lay, log, lines).1 == 0
    ensures Sized(Segments(lines))
    ensures var t := Burn(device, lay, log, lines).0;
            InPlace(t.log, lay, lines) && ByteAt(t.log, EEPROM, 0) == Some(lay.firstByte)
  {
    SegmentsInRange(lines);
    var log1 := PutByte(device, log, 0, 0).0;
    PrepareHolds(device, lay, log1, lines);
    var s := Prepare(device, lay, log1, lines).0;
    PutByteHolds(device, s.log, 0, lay.firstByte);
    var image := Image(Segments(lines), lay.chip);
    PutByteKeeps(device, s.log, 0, lay.firstByte, lay.start, image, 7);
    PutByteKeeps(device, s.log, 0, lay.firstByte, lay.start, image, 8);
  }

  /** A load that reports success leaves a complete, bootable image; any other one that got as far
      as writing leaves byte 0 at 0, or fails in the write of the boot byte over a complete image. */
  lemma {:induction false} BurnOutcome(device: Device, lay: Layout, log: seq<Xfer>, lines: seq<string>)
    requires Proper(lay) && Fits(lay, lines) && device(|log|).Done?
    ensures Sized(Segments(lines))
    ensures var (t, status) := Burn(device, lay, log, lines);
            if status == 0 then InPlace(t.log, lay, lines) && ByteAt(t.log, EEPROM, 0) == Some(lay.firstByte)
            else
              || ByteAt(t.log, EEPROM, 0) == Some(0)
              || (t.log != [] && t.log[|t.log| - 1].request == Request(RwEeprom, 0, [lay.firstByte])
                  && InPlace(t.log[..|t.log| - 1], lay, lines))
  {
    SegmentsInRange(lines);
    var (t, status) := Burn(device, lay, log, lines);
    if status == 0 {
      BurnSucceeds(device, lay, log, lines);
    } else {
      BurnLonger(device, lay, log, lines);
      UnbootableAt(device, lay, log, lines, |t.log|);
      assert t.log[..|t.log|] == t.log;
    }
  }

  lemma {:induction false} BurnLonger(device: Device, lay: Layout, log: seq<Xfer>, lines: seq<string>)
    requires Proper(lay) && Fits(lay, lines)
    ensures |Burn(device, lay, log, lines).0.log| > |log|
  {
    SegmentsInRange(lines);
    PrepareHolds(device, lay, PutByte(device, log, 0, 0).0, lines);
  }

  /** The contents of an EEPROM with the given history: what was written wins, the rest is free. */
  ghost predicate Remembers(rom: seq<Byte>, log: seq<Xfer>) {
    |rom| == 0x1_0000 && forall a: Addr16 :: ByteAt(log, EEPROM, a).Some? ==> ByteAt(log, EEPROM, a) == Some(rom[a])
  }

  /** The chip that boots from the EEPROM after a successful load is told exactly the segments of
      the file, in order, and then the CPU reset. For a well placed file those segments carry the
      byte stream of its records. */
  lemma {:induction false} BootsTheFile(device: Device, kind: string, config: bv8, log: seq<Xfer>, lines: seq<string>,
                                        rom: seq<Byte>)
    requires LayoutOf(kind, config).Some? && Fits(LayoutOf(kind, config).value, lines)
    requires Burn(device, LayoutOf(kind, config).value, log, lines).1 == 0
    requires Remembers(rom, Burn(device, LayoutOf(kind, config).value, log, lines).0.log)
    ensures var lay := LayoutOf(kind, config).value;
            && rom[0] == lay.firstByte
            && Walk(rom, lay.start)
               == Some(Segments(lines) + [Block(if kind in {"fx", "an21"} then 0x7f92 else 0xe600, [0])])
    ensures WellPlaced(Scan(lines).0) ==> Stream(Segments(lines)) == Stream(Scan(lines).0)
  {
    var lay := LayoutOf(kind, config).value;
    LayoutsAre(kind, config);
    BootWalks(device, lay, log, lines, rom);
    BurnedFileIsGood(device, lay, log, lines);
    MergePreservesStream(Scan(lines).0);
  }

  lemma {:induction false} BootWalks(device: Device, lay: Layout, log: seq<Xfer>, lines: seq<string>, rom: seq<Byte>)
    requires Proper(lay) && Fits(lay, lines) && Burn(device, lay, log, lines).1 == 0
    requires Remembers(rom, Burn(device, lay, log, lines).0.log)
    ensures rom[0] == lay.firstByte
    ensures Walk(rom, lay.start) == Some(Segments(lines) + [Block(CpucsAddr(lay.chip), [0])])
  {
    SegmentsInRange(lines);
    BurnSucceeds(device, lay, log, lines);
    var after := Burn(device, lay, log, lines).0.log;
    var image := Image(Segments(lines), lay.chip);
    forall i | 0 <= i < |image|
      ensures rom[lay.start + i] == image[i]
    {
      assert ByteAt(after, EEPROM, lay.start + i) == Some(image[i]);
    }
    WalkImage(rom, lay.start, Segments(lines), lay.chip);
  }

  lemma {:induction false} BurnedFileIsGood(device: Device, lay: Layout, log: seq<Xfer>, lines: seq<string>)
    requires Burn(device, lay, log, lines).1 == 0
    ensures !Scan(lines).1.BadLine?
  {
    ScanCodesNegative(lines);
  }
}
