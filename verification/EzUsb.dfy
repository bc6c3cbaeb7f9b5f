// The USB side of fxload: chip memory maps, vendor write requests and their log, and the
// segment writers for RAM and EEPROM (ram_poke, eeprom_poke) driven by parse_ihex.
module EzUsb {
  import opened Common
  import opened CText
  import opened Ihex

  // ---------------------------------------------------------------------
  // Memory maps
  // ---------------------------------------------------------------------

  datatype Chip = Fx | Fx2 | Fx2lp

  predicate FxIsExternal(addr: Addr16, len: nat) {
    if addr <= 0x1b3f then addr + len > 0x1b40 else true
  }

  predicate Fx2IsExternal(addr: Addr16, len: nat) {
    if addr <= 0x1fff then addr + len > 0x2000
    else if addr >= 0xe000 && addr <= 0xe1ff then addr + len > 0xe200
    else true
  }

  predicate Fx2lpIsExternal(addr: Addr16, len: nat) {
    if addr <= 0x3fff then addr + len > 0x4000
    else if addr >= 0xe000 && addr <= 0xe1ff then addr + len > 0xe200
    else true
  }

  predicate IsExternal(chip: Chip, addr: Addr16, len: nat) {
    match chip
    case Fx => FxIsExternal(addr, len)
    case Fx2 => Fx2IsExternal(addr, len)
    case Fx2lp => Fx2lpIsExternal(addr, len)
  }

  /** The addresses of writable on-chip RAM. */
  ghost predicate OnChip(chip: Chip, a: int) {
    || 0 <= a < (match chip case Fx => 0x1b40 case Fx2 => 0x2000 case Fx2lp => 0x4000)
    || (chip != Fx && 0xe000 <= a < 0xe200)
  }

  /** A non-empty block is external exactly when some byte of it lies off the chip, an empty one when its address
      does. */
  lemma {:induction false} ExternalIffSomeByteOffChip(chip: Chip, addr: Addr16, len: nat)
    ensures len > 0 ==> (IsExternal(chip, addr, len) <==> exists a :: addr <= a < addr + len && !OnChip(chip, a))
    ensures len == 0 ==> (IsExternal(chip, addr, len) <==> !OnChip(chip, addr))
  {
    var low := match chip case Fx => 0x1b40 case Fx2 => 0x2000 case Fx2lp => 0x4000;
    if len > 0 && IsExternal(chip, addr, len) {
      var a := if addr < low then low else if chip != Fx && 0xe000 <= addr < 0xe200 then 0xe200 else addr;
      assert addr <= a < addr + len && !OnChip(chip, a);
    }
  }

  function CpucsAddr(chip: Chip): Addr16 {
    if chip == Fx then 0x7f92 else 0xe600
  }

  // ---------------------------------------------------------------------
  // Vendor write requests
  // ---------------------------------------------------------------------

  type Errno = e: int | e > 0 witness 1

  const ETIMEDOUT := 110
  const EINVAL := 22
  const EDOM := 33
  const RETRY_LIMIT: nat := 5

  datatype Op = RwInternal | RwMemory | RwEeprom

  /** The answer to a write request. A failed request may still have stored some first bytes. */
  datatype Answer = Done(status: nat) | Failed(errno: Errno, stored: nat)

  /** What the device answers to its n-th request: any function at all. */
  type Device = nat -> Answer

  datatype Request = Request(op: Op, addr: Addr16, data: seq<Byte>)

  datatype Xfer = Xfer(request: Request, answer: Answer)

  function Issue(device: Device, log: seq<Xfer>, request: Request): seq<Xfer> {
    log + [Xfer(request, device(|log|))]
  }

  /** The requests of the log that succeeded, in order. */
  ghost function Delivered(log: seq<Xfer>): seq<Request> {
    if log == [] then []
    else
      var x := log[|log| - 1];
      Delivered(log[..|log| - 1]) + if x.answer.Done? then [x.request] else []
  }

  lemma {:induction false} DeliveredSnoc(log: seq<Xfer>, x: Xfer)
    ensures Delivered(log + [x]) == Delivered(log) + if x.answer.Done? then [x.request] else []
  {
    assert (log + [x])[..|log|] == log;
  }

  /** How many of its bytes a request has stored. */
  ghost function Stored(x: Xfer): nat {
    var n := |x.request.data|;
    match x.answer
    case Done(_) => n
    case Failed(_, stored) => if stored < n then stored else n
  }

  /** The offset of address a in a request, counting round from 0xffff to 0. */
  ghost function OffsetOf(r: Request, a: Addr16): nat {
    if r.addr <= a then a - r.addr else 0x1_0000 - r.addr + a
  }

  /** The byte last stored at a in the memory that `ops` write; None when none was stored. */
  ghost function ByteAt(log: seq<Xfer>, ops: set<Op>, a: Addr16): Option<Byte> {
    if log == [] then None
    else
      var x := log[|log| - 1];
      var i := OffsetOf(x.request, a);
      if x.request.op in ops && i < Stored(x) then Some(x.request.data[i])
      else ByteAt(log[..|log| - 1], ops, a)
  }

  lemma {:induction false} ByteAtUntouched(log: seq<Xfer>, ops: set<Op>, a: Addr16, n: nat)
    requires n <= |log|
    requires forall k :: n <= k < |log| ==>
               log[k].request.op !in ops || OffsetOf(log[k].request, a) >= |log[k].request.data|
    ensures ByteAt(log, ops, a) == ByteAt(log[..n], ops, a)
  {
    if n < |log| {
      var front := log[..|log| - 1];
      forall k | n <= k < |front|
        ensures front[k].request.op !in ops || OffsetOf(front[k].request, a) >= |front[k].request.data|
      {
        assert front[k] == log[k];
      }
      ByteAtUntouched(front, ops, a, n);
      assert front[..n] == log[..n];
      assert log[|log| - 1].request.op !in ops
             || OffsetOf(log[|log| - 1].request, a) >= |log[|log| - 1].request.data|;
    } else {
      assert log[..n] == log;
    }
  }

  // ---------------------------------------------------------------------
  // Writing one segment
  // ---------------------------------------------------------------------

  datatype Mode = InternalOnly | SkipInternal | SkipExternal

  /** The context parse_ihex hands to poke. */
  datatype Context =
    | Ram(mode: Mode, total: nat, count: nat)
    | Eeprom(eeAddr: Addr16, last: bool)

  datatype State = State(ctx: Context, log: seq<Xfer>)

  function Wrap16(a: int): Addr16 { a % 0x1_0000 }

  /** Repeat a request while it times out, at most `retries` more times. */
  function Persist(device: Device, log: seq<Xfer>, request: Request, retries: nat): (seq<Xfer>, int)
    decreases retries
  {
    var sent := Issue(device, log, request);
    match device(|log|)
    case Done(_) => (sent, 0)
    case Failed(errno, _) =>
      if errno == ETIMEDOUT && retries > 0 then Persist(device, sent, request, retries - 1)
      else (sent, 0 - errno)
  }

  predicate TimesOut(a: Answer) { a.Failed? && a.errno == ETIMEDOUT }

  /** A request is repeated exactly while it times out, and no more than the given number of times; what the device
      answered last is the result. */
  lemma {:induction false} PersistRepeats(device: Device, log: seq<Xfer>, request: Request, retries: nat, last: nat)
    requires |log| <= last <= |log| + retries && (forall n :: |log| <= n < last ==> TimesOut(device(n)))
    requires last == |log| + retries || !TimesOut(device(last))
    ensures var (after, rc) := Persist(device, log, request, retries);
            && |after| == last + 1 && after[..|log|] == log
            && (forall n :: |log| <= n <= last ==> after[n] == Xfer(request, device(n)))
            && rc == if device(last).Done? then 0 else 0 - device(last).errno
    decreases retries
  {
    var sent := Issue(device, log, request);
    if |log| < last {
      assert TimesOut(device(|log|));
      PersistRepeats(device, sent, request, retries - 1, last);
      var after := Persist(device, log, request, retries).0;
      assert after[..|sent|] == sent && after[..|log|] == sent[..|log|];
      assert after[|log|] == sent[|log|];
    }
  }

  function RamOp(external: bool): Op { if external then RwMemory else RwInternal }

  predicate Skips(mode: Mode, external: bool) {
    (mode == SkipInternal && !external) || (mode == SkipExternal && external)
  }

  function RamPoked(device: Device, s: State, addr: Addr16, external: bool, data: seq<Byte>): (State, int)
    requires s.ctx.Ram?
  {
    if s.ctx.mode == InternalOnly && external then (s, -EINVAL)
    else if Skips(s.ctx.mode, external) then (s, 0)
    else
      var ctx := Ram(s.ctx.mode, s.ctx.total + |data|, s.ctx.count + 1);
      var (log, rc) := Persist(device, s.log, Request(RamOp(external), addr, data), RETRY_LIMIT);
      (State(ctx, log), rc)
  }

  function Header(addr: Addr16, len: nat, last: bool): seq<Byte>
    requires len <= MAX_SEGMENT
  {
    [len / 256 + (if last then 0x80 else 0), len % 256, addr / 256, addr % 256]
  }

  function EepromPoked(device: Device, s: State, addr: Addr16, external: bool, data: seq<Byte>): (State, int)
    requires s.ctx.Eeprom?
  {
    if external then (s, -EINVAL)
    else if |data| > MAX_SEGMENT then (s, -EDOM)
    else
      var at := s.ctx.eeAddr;
      var log1 := Issue(device, s.log, Request(RwEeprom, at, Header(addr, |data|, s.ctx.last)));
      if device(|s.log|).Failed? then (s.(log := log1), -1)
      else
        var log2 := Issue(device, log1, Request(RwEeprom, Wrap16(at + 4), data));
        if device(|log1|).Failed? then (s.(log := log2), -1)
        else (State(s.ctx.(eeAddr := Wrap16(at + 4 + |data|)), log2), 0)
  }

  function Poked(device: Device, s: State, addr: Addr16, external: bool, data: seq<Byte>): (State, int) {
    match s.ctx
    case Ram(_, _, _) => RamPoked(device, s, addr, external, data)
    case Eeprom(_, _) => EepromPoked(device, s, addr, external, data)
  }

  function PokeBlock(device: Device, chip: Chip, s: State, b: Block): (State, int) {
    Poked(device, s, b.addr, IsExternal(chip, b.addr, |b.data|), b.data)
  }

  /** Poke the segments in order, up to the first failure; tells whether all succeeded. */
  function PokeAll(device: Device, chip: Chip, s: State, segs: seq<Block>): (State, bool) {
    if segs == [] then (s, true)
    else
      var (s1, ok) := PokeAll(device, chip, s, segs[..|segs| - 1]);
      if !ok then (s1, false)
      else
        var (s2, rc) := PokeBlock(device, chip, s1, segs[|segs| - 1]);
        (s2, rc >= 0)
  }

  /** parse_ihex: a failing poke wins over a bad line further down. */
  function Parsed(device: Device, chip: Chip, s: State, lines: seq<string>): (r: (State, int)) {
    var (s1, ok) := PokeAll(device, chip, s, Segments(lines));
    if !ok then (s1, -1)
    else
      var ending := Scan(lines).1;
      (s1, if ending.BadLine? then ending.code else 0)
  }

  lemma {:induction false} PokeAllStops(device: Device, chip: Chip, s: State, segs: seq<Block>, n: nat)
    requires n <= |segs| && !PokeAll(device, chip, s, segs[..n]).1
    ensures PokeAll(device, chip, s, segs) == PokeAll(device, chip, s, segs[..n])
    decreases |segs|
  {
    if n < |segs| {
      assert segs[..|segs| - 1][..n] == segs[..n];
      PokeAllStops(device, chip, s, segs[..|segs| - 1], n);
    } else {
      assert segs[..n] == segs;
    }
  }

  lemma {:induction false} PokeAllSnoc(device: Device, chip: Chip, s: State, segs: seq<Block>, b: Block)
    requires PokeAll(device, chip, s, segs).1
    ensures var r := PokeBlock(device, chip, PokeAll(device, chip, s, segs).0, b);
            PokeAll(device, chip, s, segs + [b]) == (r.0, r.1 >= 0)
  {
    assert (segs + [b])[..|segs|] == segs;
  }

  lemma {:induction false} FedOutGrows(m: Merger, rs: seq<Block>, n: nat)
    requires n <= |rs|
    ensures FeedAll(m, rs[..n]).out <= FeedAll(m, rs).out
    decreases |rs| - n
  {
    if n < |rs| {
      FedOutGrows(m, rs, n + 1);
      assert rs[..n + 1][..n] == rs[..n];
    } else {
      assert rs[..n] == rs;
    }
  }

  ghost function External(chip: Chip, b: Block): bool { IsExternal(chip, b.addr, |b.data|) }

  /** A device that takes every write; one byte is the count a CPUCS write has to report. */
  ghost function Granting(): Device { (n: nat) => Done(1) }

  ghost predicate StaysOnChip(chip: Chip, segs: seq<Block>) {
    forall b :: b in segs ==> !External(chip, b)
  }

  // ---------------------------------------------------------------------
  // The loader
  // ---------------------------------------------------------------------

  /** What the reading loop does with a line: it is ignored, merged, the end of the file, or the end of the run. */
  datatype LineStep = Ignored | Merged | AtEnd | Halts(code: int)

  class Loader {
    const device: Device
    var log: seq<Xfer>
    var ctx: Context

    constructor (device: Device)
      ensures this.device == device && log == []
    {
      this.device := device;
      log := [];
      ctx := Eeprom(0, false);
    }

    ghost function Now(): State
      reads this
    {
      State(ctx, log)
    }

    method Write(op: Op, addr: Addr16, data: seq<Byte>) returns (answer: Answer)
      modifies this`log
      ensures log == Issue(device, old(log), Request(op, addr, data))
      ensures answer == device(|old(log)|)
    {
      answer := device(|log|);
      log := log + [Xfer(Request(op, addr, data), answer)];
    }

    /** Stop the CPU, or let it run; only an answer of exactly one byte is success. */
    method Cpucs(addr: Addr16, doRun: bool) returns (ok: bool)
      modifies this`log
      ensures (log, ok) == CpucsWritten(device, old(log), addr, doRun)
    {
      var answer := Write(RwInternal, addr, [if doRun then 0 else 1]);
      ok := answer.Done? && answer.status == 1;
    }

    method RamPoke(addr: Addr16, external: bool, data: seq<Byte>) returns (rc: int)
      requires ctx.Ram?
      modifies this
      ensures (Now(), rc) == RamPoked(device, old(Now()), addr, external, data)
    {
      match ctx.mode {
        case InternalOnly =>
          if external { return -EINVAL; }
        case SkipInternal =>
          if !external { return 0; }
        case SkipExternal =>
          if external { return 0; }
      }
      ctx := Ram(ctx.mode, ctx.total + |data|, ctx.count + 1);
      rc := WriteRetrying(RamOp(external), addr, data);
    }

    /** Issue a request again while it times out, up to RETRY_LIMIT more times. */
    method WriteRetrying(op: Op, addr: Addr16, data: seq<Byte>) returns (rc: int)
      modifies this`log
      ensures (log, rc) == Persist(device, old(log), Request(op, addr, data), RETRY_LIMIT)
    {
      ghost var r, before := Request(op, addr, data), log;
      var retry := 0;
      var answer := Write(op, addr, data);
      while answer.Failed? && retry < RETRY_LIMIT
        invariant retry <= RETRY_LIMIT
        invariant log == Issue(device, before, r) && answer == device(|before|)
        invariant Persist(device, old(log), r, RETRY_LIMIT) == Persist(device, before, r, RETRY_LIMIT - retry)
      {
        if answer.errno != ETIMEDOUT { break; }
        retry := retry + 1;
        before := log;
        answer := Write(op, addr, data);
      }
      rc := if answer.Failed? then 0 - answer.errno else 0;
    }

    method EepromPoke(addr: Addr16, external: bool, data: seq<Byte>) returns (rc: int)
      requires ctx.Eeprom?
      modifies this
      ensures (Now(), rc) == EepromPoked(device, old(Now()), addr, external, data)
    {
      if external { return -EINVAL; }
      if |data| > MAX_SEGMENT { return -EDOM; }
      var answer := Write(RwEeprom, ctx.eeAddr, Header(addr, |data|, ctx.last));
      if answer.Failed? { return -1; }
      answer := Write(RwEeprom, Wrap16(ctx.eeAddr + 4), data);
      if answer.Failed? { return -1; }
      ctx := ctx.(eeAddr := Wrap16(ctx.eeAddr + 4 + |data|));
      rc := 0;
    }

    method Poke(addr: Addr16, external: bool, data: seq<Byte>) returns (rc: int)
      modifies this
      ensures (Now(), rc) == Poked(device, old(Now()), addr, external, data)
    {
      match ctx
      case Ram(_, _, _) => rc := RamPoke(addr, external, data);
      case Eeprom(_, _) => rc := EepromPoke(addr, external, data);
    }

    /** Copy bytes behind the ones already held; the buffer is never overrun. */
    static method Append(data: array<Byte>, len: nat, bytes: seq<Byte>)
      requires len + |bytes| <= data.Length
      modifies data
      ensures data[..len + |bytes|] == old(data[..len]) + bytes
    {
      var idx := 0;
      while idx < |bytes|
        invariant idx <= |bytes|
        invariant data[..len + idx] == old(data[..len]) + bytes[..idx]
      {
        data[len + idx] := bytes[idx];
        idx := idx + 1;
      }
    }

    /** Merge one record into the buffer, poking what the buffer held when the record does not
        continue it; gives up when the poke fails. */
    method Merge(chip: Chip, data: array<Byte>, dataAddr: Addr16, dataLen: nat, r: Block)
      returns (ok: bool, addr: Addr16, len: nat)
      requires data.Length == MAX_SEGMENT && dataLen <= MAX_SEGMENT && |r.data| < 256
      modifies this, data
      ensures var m := Merger(dataAddr, old(data[..dataLen]), []);
              && (Flushes(m, r) ==>
                    (Now(), ok) == Judged(PokeBlock(device, chip, old(Now()), Block(m.addr, m.buf))))
              && (!Flushes(m, r) ==> ok && Now() == old(Now()))
              && (ok ==> len <= MAX_SEGMENT && addr == Feed(m, r).addr && data[..len] == Feed(m, r).buf)
    {
      addr, len := dataAddr, dataLen;
      if len != 0 && (r.addr != addr + len || len + |r.data| > data.Length) {
        var rc := Poke(addr, IsExternal(chip, addr, len), data[..len]);
        if rc < 0 { return false, addr, len; }
        addr, len := r.addr, 0;
      }
      Append(data, len, r.data);
      len := len + |r.data|;
      ok := true;
    }

    /** The image is read by fgets, line buffer by line buffer. */
    method ParseIhex(chip: Chip, image: string) returns (rc: int)
      modifies this
      ensures (Now(), rc) == Parsed(device, chip, old(Now()), Gets(image))
    {
      ghost var s := Now();
      var data := new Byte[MAX_SEGMENT];
      var dataAddr: Addr16, dataLen: nat := 0, 0;
      var firstLine := true;
      var left := image;
      ghost var lines, i := Gets(image), 0;
      ghost var rs: seq<Block>, m := [], Merger(0, [], []);
      ReadStart(device, chip, Now(), lines);
      while left != ""
        invariant 0 <= i <= |lines| && Gets(left) == lines[i..] && dataLen <= MAX_SEGMENT
        invariant fresh(data) && data.Length == MAX_SEGMENT
        invariant firstLine <==> rs == []
        invariant m.addr == dataAddr && m.buf == data[..dataLen]
        invariant Read(device, chip, s, lines, i, rs, m, Now())
        decreases |left|
      {
        var step;
        var line, rest := NextLine(left, lines, i);
        ghost var m';
        step, dataAddr, dataLen, m' := TakeLine(chip, data, dataAddr, dataLen, firstLine, line, s, lines, i, rs, m);
        if step.Halts? { return step.code; }
        if step == AtEnd { break; }
        if step == Merged {
          firstLine := false;
          rs, m := rs + [ParseLine(line).record], m';
        }
        left := rest;
        i := i + 1;
      }
      rc := Finish(chip, dataAddr, dataLen, data, s, lines, i, rs, m);
    }

    /** The body of the reading loop. */
    method TakeLine(chip: Chip, data: array<Byte>, addr0: Addr16, len0: nat, firstLine: bool, line: string, ghost s: State,
                    ghost lines: seq<string>, ghost i: nat, ghost rs: seq<Block>, ghost m: Merger)
      returns (step: LineStep, addr: Addr16, len: nat, ghost m': Merger)
      requires data.Length == MAX_SEGMENT && len0 <= MAX_SEGMENT && m.addr == addr0 && m.buf == data[..len0]
      requires (firstLine <==> rs == []) && i < |lines| && lines[i] == line && Read(device, chip, s, lines, i, rs, m, Now())
      modifies this, data
      ensures step.Halts? ==> (Now(), step.code) == Parsed(device, chip, s, lines)
      ensures step == AtEnd ==> ParseLine(line).EndRecord? && Read(device, chip, s, lines, i, rs, m, Now())
      ensures step == Ignored ==> Read(device, chip, s, lines, i + 1, rs, m, Now())
      ensures step == AtEnd || step == Ignored ==> addr == addr0 && len == len0 && m.buf == data[..len]
      ensures step == Merged ==>
                && ParseLine(line).Data? && len <= MAX_SEGMENT && m'.addr == addr && m'.buf == data[..len]
                && Read(device, chip, s, lines, i + 1, rs + [ParseLine(line).record], m', Now())
    {
      addr, len, m' := addr0, len0, m;
      match ParseLine(line)
      case Comment =>
        ReadComment(device, chip, s, lines, i, rs, m, Now());
        step := Ignored;
      case Malformed(code) =>
        ReadEnds(device, chip, s, lines, i, rs, m, Now());
        step := Halts(code);
      case EndRecord => step := AtEnd;
      case Data(r) =>
        var ok;
        ok, addr, len, m' := Absorb(chip, data, addr0, len0, firstLine, r, s, lines, i, rs, m);
        step := if ok then Merged else Halts(-1);
    }

    /** One data record: the first one sets the address, then it is merged. */
    method Absorb(chip: Chip, data: array<Byte>, addr0: Addr16, len0: nat, firstLine: bool, r: Block, ghost s: State,
                  ghost lines: seq<string>, ghost i: nat, ghost rs: seq<Block>, ghost m: Merger)
      returns (ok: bool, addr: Addr16, len: nat, ghost m': Merger)
      requires data.Length == MAX_SEGMENT && len0 <= MAX_SEGMENT && m.addr == addr0 && m.buf == data[..len0]
      requires (firstLine <==> rs == []) && i < |lines| && ParseLine(lines[i]) == Data(r) && |r.data| < 256
      requires Read(device, chip, s, lines, i, rs, m, Now())
      modifies this, data
      ensures ok ==>
                && len <= MAX_SEGMENT && m'.addr == addr && m'.buf == data[..len]
                && Read(device, chip, s, lines, i + 1, rs + [r], m', Now())
      ensures !ok ==> (Now(), -1) == Parsed(device, chip, s, lines)
    {
      ghost var before := Now();
      m' := m;
      ok, addr, len := Merge(chip, data, if firstLine then r.addr else addr0, len0, r);
      if ok {
        ReadRecord(device, chip, s, lines, i, rs, m, before, Now());
        m' := Feed(Met(rs, m, r), r);
      } else {
        ReadBroken(device, chip, s, lines, i, rs, m, before);
      }
    }

    /** At the end record or the end of the file, flush what is left in the merge buffer. */
    method Finish(chip: Chip, dataAddr: Addr16, dataLen: nat, data: array<Byte>, ghost s: State, ghost lines: seq<string>,
                  ghost i: nat, ghost rs: seq<Block>, ghost m: Merger)
      returns (rc: int)
      requires dataLen <= data.Length && m.addr == dataAddr && m.buf == data[..dataLen]
      requires Read(device, chip, s, lines, i, rs, m, Now()) && (i == |lines| || ParseLine(lines[i]).EndRecord?)
      modifies this
      ensures (Now(), rc) == Parsed(device, chip, s, lines)
    {
      ReadEnds(device, chip, s, lines, i, rs, m, Now());
      if dataLen != 0 {
        rc := Poke(dataAddr, IsExternal(chip, dataAddr, dataLen), data[..dataLen]);
        if rc < 0 { return -1; }
      }
      rc := 0;
    }
  }

  /** One call of fgets, and the newline taken off. */
  method NextLine(left: string, ghost lines: seq<string>, ghost i: nat) returns (line: string, rest: string)
    requires i <= |lines| && Gets(left) == lines[i..] && left != ""
    ensures i < |lines| && line == lines[i] && Gets(rest) == lines[i + 1..] && |rest| < |left|
  {
    var taken := Fgets(left, LINE_BUFFER - 1);
    var got := taken.0;
    rest := taken.1;
    line := Until(got, "\n").0;
    assert lines[i..][1..] == lines[i + 1..];
    assert ([line] + Gets(rest))[1..] == Gets(rest);
  }

  function Judged(r: (State, int)): (State, bool) { (r.0, r.1 >= 0) }

  // ---------------------------------------------------------------------
  // Why the reading loop is right
  // ---------------------------------------------------------------------

  /** The lines before i hold the records rs, merging them gives m, and m's segments are poked. */
  ghost predicate Read(device: Device, chip: Chip, s: State, lines: seq<string>, i: nat, rs: seq<Block>,
                       m: Merger, now: State) {
    && i <= |lines|
    && Scan(lines) == (rs + Scan(lines[i..]).0, Scan(lines[i..]).1)
    && m == FeedAll(Start(rs), rs)
    && PokeAll(device, chip, s, m.out) == (now, true)
  }

  lemma {:induction false} ReadStart(device: Device, chip: Chip, s: State, lines: seq<string>)
    ensures Read(device, chip, s, lines, 0, [], Merger(0, [], []), s)
  {
    assert lines[0..] == lines;
    assert [] + Scan(lines).0 == Scan(lines).0;
  }

  lemma {:induction false} ReadComment(device: Device, chip: Chip, s: State, lines: seq<string>, i: nat, rs: seq<Block>,
                    m: Merger, now: State)
    requires i < |lines| && ParseLine(lines[i]).Comment?
    requires Read(device, chip, s, lines, i, rs, m, now)
    ensures Read(device, chip, s, lines, i + 1, rs, m, now)
  {
    assert lines[i..][1..] == lines[i + 1..];
  }

  /** What the merger holds when record r arrives: the first record sets the address. */
  ghost function Met(rs: seq<Block>, m: Merger, r: Block): Merger {
    if rs == [] then m.(addr := r.addr) else m
  }

  lemma {:induction false} FeedNext(rs: seq<Block>, m: Merger, r: Block)
    requires m == FeedAll(Start(rs), rs)
    ensures FeedAll(Start(rs + [r]), rs + [r]) == Feed(Met(rs, m, r), r)
  {
    assert (rs + [r])[..|rs|] == rs;
  }

  lemma {:induction false} ReadRecord(device: Device, chip: Chip, s: State, lines: seq<string>, i: nat, rs: seq<Block>,
                   m: Merger, before: State, now: State)
    requires i < |lines| && ParseLine(lines[i]).Data?
    requires Read(device, chip, s, lines, i, rs, m, before)
    requires var r := ParseLine(lines[i]).record;
             now == if Flushes(Met(rs, m, r), r) then PokeBlock(device, chip, before, Block(m.addr, m.buf)).0
                    else before
    requires var r := ParseLine(lines[i]).record;
             Flushes(Met(rs, m, r), r) ==> PokeBlock(device, chip, before, Block(m.addr, m.buf)).1 >= 0
    ensures var r := ParseLine(lines[i]).record;
            Read(device, chip, s, lines, i + 1, rs + [r], Feed(Met(rs, m, r), r), now)
  {
    var r := ParseLine(lines[i]).record;
    var rest := Scan(lines[i + 1..]).0;
    assert lines[i..][1..] == lines[i + 1..];
    assert rs + ([r] + rest) == (rs + [r]) + rest;
    FeedNext(rs, m, r);
    PokeAllSnoc(device, chip, s, m.out, Block(m.addr, m.buf));
  }

  /** The segments made from the first records start the list of all segments. */
  lemma {:induction false} SegmentsBegin(lines: seq<string>, rs: seq<Block>, rest: seq<Block>)
    requires Scan(lines).0 == rs + rest && rs != []
    ensures FeedAll(Start(rs), rs).out <= Segments(lines)
  {
    var all := rs + rest;
    assert all[..|rs|] == rs && Start(all) == Start(rs);
    FedOutGrows(Start(all), all, |rs|);
  }

  lemma {:induction false} ScanNext(lines: seq<string>, i: nat, rs: seq<Block>)
    requires i < |lines| && ParseLine(lines[i]).Data?
    requires Scan(lines).0 == rs + Scan(lines[i..]).0
    ensures Scan(lines).0 == (rs + [ParseLine(lines[i]).record]) + Scan(lines[i + 1..]).0
  {
    assert lines[i..][1..] == lines[i + 1..];
  }

  /** A poke that fails while the file is being read decides the outcome. */
  lemma {:induction false} ReadBroken(device: Device, chip: Chip, s: State, lines: seq<string>, i: nat,
                                      rs: seq<Block>, m: Merger, before: State)
    requires i < |lines| && ParseLine(lines[i]).Data?
    requires Read(device, chip, s, lines, i, rs, m, before)
    requires Flushes(m, ParseLine(lines[i]).record) && rs != []
    requires PokeBlock(device, chip, before, Block(m.addr, m.buf)).1 < 0
    ensures Parsed(device, chip, s, lines) == (PokeBlock(device, chip, before, Block(m.addr, m.buf)).0, -1)
  {
    var r := ParseLine(lines[i]).record;
    ScanNext(lines, i, rs);
    FeedNext(rs, m, r);
    SegmentsBegin(lines, rs + [r], Scan(lines[i + 1..]).0);
    Broken(device, chip, s, Segments(lines), m.out, Block(m.addr, m.buf), before);
  }

  lemma {:induction false} Broken(device: Device, chip: Chip, s: State, segs: seq<Block>, out: seq<Block>, b: Block,
                                  before: State)
    requires out + [b] <= segs && PokeAll(device, chip, s, out) == (before, true)
    requires PokeBlock(device, chip, before, b).1 < 0
    ensures PokeAll(device, chip, s, segs) == (PokeBlock(device, chip, before, b).0, false)
  {
    PokeAllSnoc(device, chip, s, out, b);
    assert segs[..|out| + 1] == out + [b];
    PokeAllStops(device, chip, s, segs, |out| + 1);
  }

  /** When the scan stops here, the records read are all of them. */
  lemma {:induction false} ReadEnds(device: Device, chip: Chip, s: State, lines: seq<string>, i: nat, rs: seq<Block>,
                 m: Merger, now: State)
    requires Read(device, chip, s, lines, i, rs, m, now)
    ensures i < |lines| && ParseLine(lines[i]).Malformed? ==>
              Parsed(device, chip, s, lines) == (now, ParseLine(lines[i]).code)
    ensures i == |lines| || ParseLine(lines[i]).EndRecord? ==>
              Parsed(device, chip, s, lines)
              == if m.buf == [] then (now, 0)
                 else var (end, rc) := PokeBlock(device, chip, now, Block(m.addr, m.buf));
                      (end, if rc < 0 then -1 else 0)
  {
    if i == |lines| || ParseLine(lines[i]).EndRecord? || ParseLine(lines[i]).Malformed? {
      assert rs + [] == rs;
      PokeAllSnoc(device, chip, s, m.out, Block(m.addr, m.buf));
    }
  }

  function CpucsWritten(device: Device, log: seq<Xfer>, addr: Addr16, doRun: bool): (seq<Xfer>, bool) {
    var answer := device(|log|);
    (Issue(device, log, Request(RwInternal, addr, [if doRun then 0 else 1])), answer.Done? && answer.status == 1)
  }
}
