// Loading an Intel HEX file into target RAM, in one or two phases (ezusb_load_ram).
module RamLoad {
  import opened Common
  import opened Ihex
  import opened EzUsb

  // ---------------------------------------------------------------------
  // The program
  // ---------------------------------------------------------------------

  /** What ezusb_load_ram does to the device, and the status it returns. */
  function LoadRun(device: Device, chip: Chip, log: seq<Xfer>, lines: seq<string>, stage: bool): (State, int) {
    if !stage then
      var (log1, ok) := CpucsWritten(device, log, CpucsAddr(chip), false);
      var s1 := State(Ram(InternalOnly, 0, 0), log1);
      if !ok then (s1, -1)
      else
        var (s2, status) := Parsed(device, chip, s1, lines);
        if status < 0 then (s2, status) else Resume(device, chip, s2)
    else
      var (s1, status) := Parsed(device, chip, State(Ram(SkipInternal, 0, 0), log), lines);
      if status < 0 then (s1, status) else SecondPhase(device, chip, s1, lines)
  }

  function SecondPhase(device: Device, chip: Chip, s: State, lines: seq<string>): (State, int) {
    var (log, ok) := CpucsWritten(device, s.log, CpucsAddr(chip), false);
    var s1 := State(if s.ctx.Ram? then s.ctx.(mode := SkipExternal) else s.ctx, log);
    if !ok then (s1, -1)
    else
      var (s2, status) := Parsed(device, chip, s1, lines);
      if status < 0 then (s2, status) else Resume(device, chip, s2)
  }

  function Resume(device: Device, chip: Chip, s: State): (State, int) {
    var (log, ok) := CpucsWritten(device, s.log, CpucsAddr(chip), true);
    (s.(log := log), if ok then 0 else -1)
  }

  /** `image` is None when the file cannot be opened; `fx2` selects the chip family. */
  method LoadRam(loader: Loader, image: Option<string>, fx2: int, stage: bool) returns (status: int)
    modifies loader
    ensures image.None? ==> status == -2 && loader.Now() == old(loader.Now())
    ensures image.Some? ==>
              (loader.Now(), status)
              == LoadRun(loader.device, match fx2 case 0 => Fx case 2 => Fx2lp case _ => Fx2, old(loader.log),
                         Gets(image.value), stage)
  {
    if image.None? { return -2; }
    var chip, cpucs := Fx, 0x7f92;
    if fx2 == 2 {
      chip, cpucs := Fx2lp, 0xe600;
    } else if fx2 != 0 {
      chip, cpucs := Fx2, 0xe600;
    }
    var ok;
    if !stage {
      loader.ctx := Ram(InternalOnly, 0, 0);
      ok := loader.Cpucs(cpucs, false);
      if !ok { return -1; }
    } else {
      loader.ctx := Ram(SkipInternal, 0, 0);
    }
    status := loader.ParseIhex(chip, image.value);
    if status < 0 { return; }
    ParsedKeepsMode(loader.device, chip, State(Ram(if stage then SkipInternal else InternalOnly, 0, 0),
                    if stage then old(loader.log) else CpucsWritten(loader.device, old(loader.log), cpucs, false).0),
                    Gets(image.value));
    if stage {
      loader.ctx := loader.ctx.(mode := SkipExternal);
      ok := loader.Cpucs(cpucs, false);
      if !ok { return -1; }
      status := loader.ParseIhex(chip, image.value);
      if status < 0 { return; }
    }
    ok := loader.Cpucs(cpucs, true);
    status := if ok then 0 else -1;
  }

  lemma {:induction false} PokeAllKeepsMode(device: Device, chip: Chip, s: State, segs: seq<Block>)
    requires s.ctx.Ram?
    ensures var t := PokeAll(device, chip, s, segs).0.ctx; t.Ram? && t.mode == s.ctx.mode
    decreases |segs|
  {
    if segs != [] {
      PokeAllKeepsMode(device, chip, s, segs[..|segs| - 1]);
    }
  }

  lemma {:induction false} ParsedKeepsMode(device: Device, chip: Chip, s: State, lines: seq<string>)
    requires s.ctx.Ram?
    ensures var t := Parsed(device, chip, s, lines).0.ctx; t.Ram? && t.mode == s.ctx.mode
  {
    PokeAllKeepsMode(device, chip, s, Segments(lines));
  }

  // ---------------------------------------------------------------------
  // What a successful load delivers
  // ---------------------------------------------------------------------

  /** The segments that are external, or that are not, in order. */
  ghost function Select(chip: Chip, segs: seq<Block>, external: bool): seq<Block> {
    if segs == [] then []
    else
      var b := segs[|segs| - 1];
      var front := Select(chip, segs[..|segs| - 1], external);
      if External(chip, b) == external then front + [b] else front
  }

  ghost function AsRequests(segs: seq<Block>, op: Op): seq<Request> {
    seq(|segs|, i requires 0 <= i < |segs| => Request(op, segs[i].addr, segs[i].data))
  }

  /** Bit 0 of the CPU control register holds the CPU in reset. */
  ghost function HaltRequest(chip: Chip): Request { Request(RwInternal, if chip == Fx then 0x7f92 else 0xe600, [1]) }

  ghost function RunRequest(chip: Chip): Request { Request(RwInternal, if chip == Fx then 0x7f92 else 0xe600, [0]) }

  /** A segment of the image, or a one-byte CPUCS write. */
  ghost predicate OfImage(r: Request, segs: seq<Block>, chip: Chip) {
    || r == HaltRequest(chip)
    || r == RunRequest(chip)
    || exists k :: 0 <= k < |segs| && r.addr == segs[k].addr && r.data == segs[k].data
  }

  ghost predicate FromImage(d: seq<Xfer>, segs: seq<Block>, chip: Chip) {
    forall n :: 0 <= n < |d| ==> OfImage(d[n].request, segs, chip)
  }

  lemma {:induction false} DeliveredConcat(a: seq<Xfer>, b: seq<Xfer>)
    ensures Delivered(a + b) == Delivered(a) + Delivered(b)
    decreases |b|
  {
    if b == [] {
      assert a + b == a;
    } else {
      var n := |b| - 1;
      assert (a + b)[..|a + b| - 1] == a + b[..n];
      DeliveredConcat(a, b[..n]);
    }
  }

  /** A retried request is issued one or more times and delivered once, if it succeeds. */
  lemma {:induction false} Persists(device: Device, log: seq<Xfer>, r: Request, retries: nat)
    ensures var (log', rc) := Persist(device, log, r, retries);
            && log < log' && |log'| <= |log| + retries + 1
            && (forall n :: |log| <= n < |log'| ==> log'[n].request == r)
            && Delivered(log') == (if rc >= 0 then Delivered(log) + [r] else Delivered(log))
    decreases retries
  {
    var x := Xfer(r, device(|log|));
    DeliveredSnoc(log, x);
    if x.answer.Failed? && x.answer.errno == ETIMEDOUT && retries > 0 {
      Persists(device, log + [x], r, retries - 1);
      assert (log + [x])[|log|] == x;
    }
  }

  ghost function TakenOf(mode: Mode, chip: Chip, segs: seq<Block>): seq<Request> {
    match mode
    case SkipInternal => AsRequests(Select(chip, segs, true), RwMemory)
    case _ => AsRequests(Select(chip, segs, false), RwInternal)
  }

  ghost function TakenTotal(mode: Mode, chip: Chip, segs: seq<Block>): nat {
    Total(Select(chip, segs, mode == SkipInternal))
  }

  lemma {:induction false} SelectSnoc(chip: Chip, segs: seq<Block>, b: Block, external: bool)
    ensures Select(chip, segs + [b], external)
         == if External(chip, b) == external then Select(chip, segs, external) + [b] else Select(chip, segs, external)
  {
    assert (segs + [b])[..|segs|] == segs;
  }

  lemma {:induction false} AsRequestsSnoc(segs: seq<Block>, b: Block, op: Op)
    ensures AsRequests(segs + [b], op) == AsRequests(segs, op) + [Request(op, b.addr, b.data)]
  {}

  lemma {:induction false} OfImageGrows(r: Request, segs: seq<Block>, b: Block, chip: Chip)
    requires OfImage(r, segs, chip) || (r.addr == b.addr && r.data == b.data)
    ensures OfImage(r, segs + [b], chip)
  {
    if r.addr == b.addr && r.data == b.data {
      assert (segs + [b])[|segs|] == b;
    } else if r != HaltRequest(chip) && r != RunRequest(chip) {
      var k :| 0 <= k < |segs| && r.addr == segs[k].addr && r.data == segs[k].data;
      assert (segs + [b])[k] == segs[k];
    }
  }

  lemma {:induction false} FromImageGrows(d: seq<Xfer>, segs: seq<Block>, b: Block, chip: Chip)
    requires FromImage(d, segs, chip)
    ensures FromImage(d, segs + [b], chip)
  {
    forall n | 0 <= n < |d|
      ensures OfImage(d[n].request, segs + [b], chip)
    {
      OfImageGrows(d[n].request, segs, b, chip);
    }
  }

  lemma {:induction false} FromImageConcat(a: seq<Xfer>, b: seq<Xfer>, segs: seq<Block>, chip: Chip)
    requires FromImage(a, segs, chip) && FromImage(b, segs, chip)
    ensures FromImage(a + b, segs, chip)
  {}

  /** log' extends log by requests of the image, of which exactly rs were delivered. */
  ghost predicate Adds(log: seq<Xfer>, log': seq<Xfer>, segs: seq<Block>, chip: Chip, rs: seq<Request>) {
    && log <= log'
    && FromImage(log'[|log|..], segs, chip)
    && Delivered(log'[|log|..]) == rs
  }

  lemma {:induction false} AddsThen(a: seq<Xfer>, b: seq<Xfer>, c: seq<Xfer>, segs: seq<Block>, chip: Chip,
                 rs: seq<Request>, ts: seq<Request>)
    requires Adds(a, b, segs, chip, rs) && Adds(b, c, segs, chip, ts)
    ensures Adds(a, c, segs, chip, rs + ts)
  {
    assert c[|a|..] == b[|a|..] + c[|b|..];
    DeliveredConcat(b[|a|..], c[|b|..]);
    FromImageConcat(b[|a|..], c[|b|..], segs, chip);
  }

  /** The request a pass makes for one segment, if it takes it. */
  ghost function Taken(mode: Mode, chip: Chip, b: Block): seq<Request> {
    var external := External(chip, b);
    if external == (mode == SkipInternal) then [Request(RamOp(external), b.addr, b.data)] else []
  }

  lemma {:induction false} CancelPrefix<T>(a: seq<T>, b: seq<T>, c: seq<T>)
    requires a + b == a + c
    ensures b == c
  {
    assert (a + b)[|a|..] == b && (a + c)[|a|..] == c;
  }

  lemma {:induction false} DeliveredSuffix(log: seq<Xfer>, log': seq<Xfer>, rs: seq<Request>)
    requires log <= log' && Delivered(log') == Delivered(log) + rs
    ensures Delivered(log'[|log|..]) == rs
  {
    assert log + log'[|log|..] == log';
    DeliveredConcat(log, log'[|log|..]);
    CancelPrefix(Delivered(log), Delivered(log'[|log|..]), rs);
  }

  lemma {:induction false} PersistAdds(device: Device, log: seq<Xfer>, r: Request, segs: seq<Block>, chip: Chip)
    requires OfImage(r, segs, chip)
    ensures var (log', rc) := Persist(device, log, r, RETRY_LIMIT);
            Adds(log, log', segs, chip, if rc >= 0 then [r] else [])
  {
    var (log', rc) := Persist(device, log, r, RETRY_LIMIT);
    Persists(device, log, r, RETRY_LIMIT);
    if rc < 0 {
      assert Delivered(log) + [] == Delivered(log);
    }
    DeliveredSuffix(log, log', if rc >= 0 then [r] else []);
  }

  lemma {:induction false} PokedSegment(device: Device, chip: Chip, s: State, segs: seq<Block>, b: Block)
    requires s.ctx.Ram? && PokeBlock(device, chip, s, b).1 >= 0
    ensures Adds(s.log, PokeBlock(device, chip, s, b).0.log, segs + [b], chip, Taken(s.ctx.mode, chip, b))
  {
    var external := External(chip, b);
    if !Skips(s.ctx.mode, external) {
      var r := Request(RamOp(external), b.addr, b.data);
      OfImageGrows(r, segs, b, chip);
      PersistAdds(device, s.log, r, segs + [b], chip);
    }
  }

  lemma {:induction false} TakenSnoc(mode: Mode, chip: Chip, segs: seq<Block>, b: Block)
    ensures TakenOf(mode, chip, segs + [b]) == TakenOf(mode, chip, segs) + Taken(mode, chip, b)
  {
    var external := mode == SkipInternal;
    SelectSnoc(chip, segs, b, external);
    AsRequestsSnoc(Select(chip, segs, external), b, RamOp(external));
  }

  /** One pass over the segments delivers exactly those its mode takes, in order. */
  lemma {:induction false} PassAdds(device: Device, chip: Chip, s: State, segs: seq<Block>)
    requires s.ctx.Ram? && PokeAll(device, chip, s, segs).1
    ensures Adds(s.log, PokeAll(device, chip, s, segs).0.log, segs, chip, TakenOf(s.ctx.mode, chip, segs))
    decreases |segs|
  {
    if segs == [] {
      assert TakenOf(s.ctx.mode, chip, segs) == [];
    } else {
      var front, b := segs[..|segs| - 1], segs[|segs| - 1];
      assert segs == front + [b];
      PassAdds(device, chip, s, front);
      PokeAllKeepsMode(device, chip, s, front);
      var s1 := PokeAll(device, chip, s, front).0;
      var s2 := PokeBlock(device, chip, s1, b).0;
      PokedSegment(device, chip, s1, front, b);
      FromImageGrows(s1.log[|s.log|..], front, b, chip);
      AddsThen(s.log, s1.log, s2.log, segs, chip, TakenOf(s.ctx.mode, chip, front), Taken(s.ctx.mode, chip, b));
      TakenSnoc(s.ctx.mode, chip, front, b);
    }
  }

  ghost function TakenBytes(mode: Mode, chip: Chip, b: Block): nat {
    if External(chip, b) == (mode == SkipInternal) then |b.data| else 0
  }

  lemma {:induction false} TakenTotalSnoc(mode: Mode, chip: Chip, segs: seq<Block>, b: Block)
    ensures TakenTotal(mode, chip, segs + [b]) == TakenTotal(mode, chip, segs) + TakenBytes(mode, chip, b)
  {
    SelectSnoc(chip, segs, b, mode == SkipInternal);
    TotalSnoc(Select(chip, segs, mode == SkipInternal), b);
  }

  lemma {:induction false} PokedTotal(device: Device, chip: Chip, s: State, b: Block)
    requires s.ctx.Ram? && PokeBlock(device, chip, s, b).1 >= 0
    ensures var t := PokeBlock(device, chip, s, b).0.ctx;
            t.Ram? && t.total == s.ctx.total + TakenBytes(s.ctx.mode, chip, b)
  {}

  lemma {:induction false} PassTotals(device: Device, chip: Chip, s: State, segs: seq<Block>)
    requires s.ctx.Ram? && PokeAll(device, chip, s, segs).1
    ensures PokeAll(device, chip, s, segs).0.ctx.Ram?
    ensures PokeAll(device, chip, s, segs).0.ctx.total == s.ctx.total + TakenTotal(s.ctx.mode, chip, segs)
    decreases |segs|
  {
    if segs != [] {
      var front, b := segs[..|segs| - 1], segs[|segs| - 1];
      assert segs == front + [b];
      PassTotals(device, chip, s, front);
      PokeAllKeepsMode(device, chip, s, front);
      PokedTotal(device, chip, PokeAll(device, chip, s, front).0, b);
      TakenTotalSnoc(s.ctx.mode, chip, front, b);
    }
  }

  lemma {:induction false} InternalPassStaysOnChip(device: Device, chip: Chip, s: State, segs: seq<Block>)
    requires s.ctx.Ram? && s.ctx.mode == InternalOnly && PokeAll(device, chip, s, segs).1
    ensures forall k :: 0 <= k < |segs| ==> !External(chip, segs[k])
    decreases |segs|
  {
    if segs != [] {
      InternalPassStaysOnChip(device, chip, s, segs[..|segs| - 1]);
      PokeAllKeepsMode(device, chip, s, segs[..|segs| - 1]);
      assert forall k :: 0 <= k < |segs| - 1 ==> segs[k] == segs[..|segs| - 1][k];
    }
  }

  /** What the device has to receive, in this order. */
  ghost function Expected(chip: Chip, segs: seq<Block>, stage: bool): seq<Request> {
    if stage then
      AsRequests(Select(chip, segs, true), RwMemory) + [HaltRequest(chip)]
      + AsRequests(Select(chip, segs, false), RwInternal) + [RunRequest(chip)]
    else
      [HaltRequest(chip)] + AsRequests(segs, RwInternal) + [RunRequest(chip)]
  }

  /** Each segment is taken by exactly one of the two phases. */
  lemma {:induction false} SelectPartitions(chip: Chip, segs: seq<Block>)
    ensures multiset(Select(chip, segs, true)) + multiset(Select(chip, segs, false)) == multiset(segs)
  {
    if segs != [] {
      var front, b := segs[..|segs| - 1], segs[|segs| - 1];
      SelectPartitions(chip, front);
      assert segs == front + [b];
      SelectSnoc(chip, front, b, true);
      SelectSnoc(chip, front, b, false);
    }
  }

  lemma {:induction false} TotalsPartition(chip: Chip, segs: seq<Block>)
    ensures Total(Select(chip, segs, true)) + Total(Select(chip, segs, false)) == Total(segs)
  {
    if segs != [] {
      var front, b := segs[..|segs| - 1], segs[|segs| - 1];
      TotalsPartition(chip, front);
      TotalSnoc(Select(chip, front, External(chip, b)), b);
    }
  }

  lemma {:induction false} SelectAllInternal(chip: Chip, segs: seq<Block>)
    requires forall k :: 0 <= k < |segs| ==> !External(chip, segs[k])
    ensures Select(chip, segs, false) == segs
  {
    if segs != [] {
      SelectAllInternal(chip, segs[..|segs| - 1]);
      assert segs == segs[..|segs| - 1] + [segs[|segs| - 1]];
    }
  }

  lemma {:induction false} CpucsAdds(device: Device, log: seq<Xfer>, chip: Chip, segs: seq<Block>, doRun: bool)
    requires CpucsWritten(device, log, CpucsAddr(chip), doRun).1
    ensures Adds(log, CpucsWritten(device, log, CpucsAddr(chip), doRun).0, segs, chip,
                 [if doRun then RunRequest(chip) else HaltRequest(chip)])
  {
    var x := Xfer(if doRun then RunRequest(chip) else HaltRequest(chip), device(|log|));
    assert (log + [x])[|log|..] == [] + [x];
    DeliveredSnoc([], x);
  }

  lemma {:induction false} OneStageDelivers(device: Device, chip: Chip, log: seq<Xfer>, lines: seq<string>)
    requires LoadRun(device, chip, log, lines, false).1 == 0
    ensures Adds(log, LoadRun(device, chip, log, lines, false).0.log, Segments(lines), chip,
                 Expected(chip, Segments(lines), false))
    ensures forall k :: 0 <= k < |Segments(lines)| ==> !External(chip, Segments(lines)[k])
  {
    var segs := Segments(lines);
    CpucsAdds(device, log, chip, segs, false);
    var s1 := State(Ram(InternalOnly, 0, 0), CpucsWritten(device, log, CpucsAddr(chip), false).0);
    PassAdds(device, chip, s1, segs);
    InternalPassStaysOnChip(device, chip, s1, segs);
    SelectAllInternal(chip, segs);
    var s2 := PokeAll(device, chip, s1, segs).0;
    CpucsAdds(device, s2.log, chip, segs, true);
    var rs := [HaltRequest(chip)];
    AddsThen(log, s1.log, s2.log, segs, chip, rs, AsRequests(segs, RwInternal));
    AddsThen(log, s2.log, Resume(device, chip, s2).0.log, segs, chip, rs + AsRequests(segs, RwInternal), [RunRequest(chip)]);
  }

  lemma {:induction false} TwoStagesDeliver(device: Device, chip: Chip, log: seq<Xfer>, lines: seq<string>)
    requires LoadRun(device, chip, log, lines, true).1 == 0
    ensures Adds(log, LoadRun(device, chip, log, lines, true).0.log, Segments(lines), chip,
                 Expected(chip, Segments(lines), true))
  {
    var segs := Segments(lines);
    var s0 := State(Ram(SkipInternal, 0, 0), log);
    PassAdds(device, chip, s0, segs);
    ParsedKeepsMode(device, chip, s0, lines);
    var s1 := PokeAll(device, chip, s0, segs).0;
    CpucsAdds(device, s1.log, chip, segs, false);
    var s2 := State(s1.ctx.(mode := SkipExternal), CpucsWritten(device, s1.log, CpucsAddr(chip), false).0);
    PassAdds(device, chip, s2, segs);
    var s3 := PokeAll(device, chip, s2, segs).0;
    CpucsAdds(device, s3.log, chip, segs, true);
    var outer := AsRequests(Select(chip, segs, true), RwMemory);
    var inner := AsRequests(Select(chip, segs, false), RwInternal);
    AddsThen(log, s1.log, s2.log, segs, chip, outer, [HaltRequest(chip)]);
    AddsThen(log, s2.log, s3.log, segs, chip, outer + [HaltRequest(chip)], inner);
    AddsThen(log, s3.log, Resume(device, chip, s3).0.log, segs, chip, outer + [HaltRequest(chip)] + inner,
             [RunRequest(chip)]);
  }

  /** A load that reports success has delivered every segment of the file exactly once: with a
      second stage loader the external ones, then the CPU halt, then the on-chip ones; without one
      everything after the halt, all of it on-chip; and the CPU is let go last. */
  lemma {:induction false} LoadDelivers(device: Device, chip: Chip, log: seq<Xfer>, lines: seq<string>, stage: bool)
    requires LoadRun(device, chip, log, lines, stage).1 == 0
    ensures Adds(log, LoadRun(device, chip, log, lines, stage).0.log, Segments(lines), chip,
                 Expected(chip, Segments(lines), stage))
    ensures !stage ==> forall k :: 0 <= k < |Segments(lines)| ==> !External(chip, Segments(lines)[k])
  {
    if stage {
      TwoStagesDeliver(device, chip, log, lines);
    } else {
      OneStageDelivers(device, chip, log, lines);
    }
  }

  // ---------------------------------------------------------------------
  // The byte count
  // ---------------------------------------------------------------------

  lemma {:induction false} TotalIsStreamLength(bs: seq<Block>)
    ensures |Stream(bs)| == Total(bs)
  {
    if bs != [] {
      TotalIsStreamLength(bs[..|bs| - 1]);
    }
  }

  lemma {:induction false} MergeKeepsLength(m: Merger, rs: seq<Block>)
    ensures |Stream(Drain(FeedAll(m, rs)))| == |Stream(Drain(m))| + |Stream(rs)|
  {
    if rs != [] {
      MergeKeepsLength(m, rs[..|rs| - 1]);
      FeedAppends(FeedAll(m, rs[..|rs| - 1]), rs[|rs| - 1]);
    }
  }

  lemma {:induction false} LoadedFileIsGood(device: Device, chip: Chip, log: seq<Xfer>, lines: seq<string>, stage: bool)
    requires LoadRun(device, chip, log, lines, stage).1 == 0
    ensures !Scan(lines).1.BadLine?
  {
    ScanCodesNegative(lines);
  }

  lemma {:induction false} OneStageTotals(device: Device, chip: Chip, log: seq<Xfer>, lines: seq<string>)
    requires LoadRun(device, chip, log, lines, false).1 == 0
    ensures var ctx := LoadRun(device, chip, log, lines, false).0.ctx;
            ctx.Ram? && ctx.total == Total(Segments(lines))
  {
    var s1 := State(Ram(InternalOnly, 0, 0), CpucsWritten(device, log, CpucsAddr(chip), false).0);
    PassTotals(device, chip, s1, Segments(lines));
    InternalPassStaysOnChip(device, chip, s1, Segments(lines));
    SelectAllInternal(chip, Segments(lines));
  }

  lemma {:induction false} SecondPhaseTotal(device: Device, chip: Chip, s: State, lines: seq<string>)
    requires s.ctx.Ram? && SecondPhase(device, chip, s, lines).1 == 0
    ensures SecondPhase(device, chip, s, lines).0.ctx.Ram?
    ensures SecondPhase(device, chip, s, lines).0.ctx.total
         == s.ctx.total + TakenTotal(SkipExternal, chip, Segments(lines))
  {
    var s1 := State(s.ctx.(mode := SkipExternal), CpucsWritten(device, s.log, CpucsAddr(chip), false).0);
    PassTotals(device, chip, s1, Segments(lines));
  }

  lemma {:induction false} FirstPhaseTotal(device: Device, chip: Chip, log: seq<Xfer>, lines: seq<string>) returns (s1: State)
    requires LoadRun(device, chip, log, lines, true).1 == 0
    ensures LoadRun(device, chip, log, lines, true) == SecondPhase(device, chip, s1, lines)
    ensures s1.ctx.Ram? && s1.ctx.total == TakenTotal(SkipInternal, chip, Segments(lines))
  {
    var s0 := State(Ram(SkipInternal, 0, 0), log);
    PassTotals(device, chip, s0, Segments(lines));
    s1 := Parsed(device, chip, s0, lines).0;
  }

  lemma {:induction false} TwoStagesTotal(device: Device, chip: Chip, log: seq<Xfer>, lines: seq<string>)
    requires LoadRun(device, chip, log, lines, true).1 == 0
    ensures LoadRun(device, chip, log, lines, true).0.ctx.Ram?
    ensures LoadRun(device, chip, log, lines, true).0.ctx.total == Total(Segments(lines))
  {
    var s1 := FirstPhaseTotal(device, chip, log, lines);
    SecondPhaseTotal(device, chip, s1, lines);
    PhasesTakeAll(chip, Segments(lines));
  }

  lemma {:induction false} PhasesTakeAll(chip: Chip, segs: seq<Block>)
    ensures TakenTotal(SkipInternal, chip, segs) + TakenTotal(SkipExternal, chip, segs) == Total(segs)
  {
    TotalsPartition(chip, segs);
  }

  /** ctx.total counts the bytes of the file's records. */
  lemma {:induction false} LoadCountsBytes(device: Device, chip: Chip, log: seq<Xfer>, lines: seq<string>, stage: bool)
    requires LoadRun(device, chip, log, lines, stage).1 == 0
    ensures var ctx := LoadRun(device, chip, log, lines, stage).0.ctx;
            ctx.Ram? && ctx.total == Total(Scan(lines).0)
  {
    if stage {
      TwoStagesTotal(device, chip, log, lines);
    } else {
      OneStageTotals(device, chip, log, lines);
    }
    LoadedFileIsGood(device, chip, log, lines, stage);
    var rs := Scan(lines).0;
    MergeKeepsLength(Start(rs), rs);
    TotalIsStreamLength(rs);
    TotalIsStreamLength(Merge(rs));
  }

  // ---------------------------------------------------------------------
  // The memory after a load
  // ---------------------------------------------------------------------

  const RAM_OPS: set<Op> := {RwInternal, RwMemory}

  /** Every place the stream writes is below 64K and is always given the same byte. */
  ghost predicate Consistent(stream: seq<(int, Byte)>) {
    && (forall p :: p in stream ==> 0 <= p.0 < 0x1_0000)
    && (forall p, q :: p in stream && q in stream && p.0 == q.0 ==> p.1 == q.1)
  }

  lemma {:induction false} StreamHas(bs: seq<Block>, k: nat, i: nat)
    requires k < |bs| && i < |bs[k].data|
    ensures (bs[k].addr + i, bs[k].data[i]) in Stream(bs)
  {
    var n := |bs| - 1;
    if k < n {
      StreamHas(bs[..n], k, i);
    } else {
      assert Placed(bs[k].addr, bs[k].data)[i] == (bs[k].addr + i, bs[k].data[i]);
    }
  }

  lemma {:induction false} StreamFrom(bs: seq<Block>, p: (int, Byte)) returns (k: nat, i: nat)
    requires p in Stream(bs)
    ensures k < |bs| && i < |bs[k].data| && p == (bs[k].addr + i, bs[k].data[i])
  {
    var n := |bs| - 1;
    if p in Stream(bs[..n]) {
      k, i := StreamFrom(bs[..n], p);
    } else {
      assert p in Placed(bs[n].addr, bs[n].data);
      i :| 0 <= i < |bs[n].data| && Placed(bs[n].addr, bs[n].data)[i] == p;
      k := n;
    }
  }

  lemma {:induction false} DeliveredIn(d: seq<Xfer>, r: Request) returns (n: nat)
    requires r in Delivered(d)
    ensures n < |d| && d[n] == Xfer(r, d[n].answer) && d[n].answer.Done?
  {
    var m := |d| - 1;
    if r in Delivered(d[..m]) {
      n := DeliveredIn(d[..m], r);
    } else {
      n := m;
    }
  }

  /** Memory holds b at a when some successful request stored it and no request stores another. */
  lemma {:induction false} ByteAtAgreed(log: seq<Xfer>, d: seq<Xfer>, a: Addr16, b: Byte, n: nat)
    requires forall k :: 0 <= k < |d| && d[k].request.op in RAM_OPS && OffsetOf(d[k].request, a) < |d[k].request.data|
               ==> d[k].request.data[OffsetOf(d[k].request, a)] == b
    requires n < |d| && d[n].answer.Done? && d[n].request.op in RAM_OPS
    requires OffsetOf(d[n].request, a) < |d[n].request.data|
    ensures ByteAt(log + d, RAM_OPS, a) == Some(b)
    decreases |d|
  {
    var m := |d| - 1;
    assert (log + d)[..|log + d| - 1] == log + d[..m];
    assert (log + d)[|log + d| - 1] == d[m];
    if n < m {
      ByteAtAgreed(log, d[..m], a, b, n);
    }
  }

  /** A request of a consistent image that covers a writes the image's byte there. */
  lemma {:induction false} CoveringRequestAgrees(chip: Chip, segs: seq<Block>, r: Request, p: (int, Byte))
    requires Consistent(Stream(segs)) && p in Stream(segs) && p.0 != CpucsAddr(chip)
    requires OfImage(r, segs, chip)
    requires OffsetOf(r, p.0) < |r.data|
    ensures r.data[OffsetOf(r, p.0)] == p.1
  {
    var i := OffsetOf(r, p.0);
    if r != HaltRequest(chip) && r != RunRequest(chip) {
      var k :| 0 <= k < |segs| && r.addr == segs[k].addr && r.data == segs[k].data;
      StreamHas(segs, k, |r.data| - 1);
      StreamHas(segs, k, i);
      assert r.addr + i == p.0;
    }
  }

  /** The request that delivers the byte p of the file. */
  lemma {:induction false} ByteIsDelivered(chip: Chip, segs: seq<Block>, stage: bool, p: (int, Byte)) returns (r: Request)
    requires Consistent(Stream(segs)) && p in Stream(segs)
    ensures r in Expected(chip, segs, stage) && r.op in RAM_OPS && OffsetOf(r, p.0) < |r.data|
  {
    var k, i := StreamFrom(segs, p);
    r := Request(if stage && External(chip, segs[k]) then RwMemory else RwInternal, segs[k].addr, segs[k].data);
    if stage {
      SelectHas(chip, segs, k);
    } else {
      assert AsRequests(segs, RwInternal)[k] == r;
    }
    assert OffsetOf(r, p.0) == i;
  }

  /** After a successful load of a well-placed, consistent file, target memory holds every byte of
      the file at its address, the CPUCS register aside, whatever failed requests left behind. */
  lemma {:induction false} LoadedMemory(device: Device, chip: Chip, log: seq<Xfer>, lines: seq<string>, stage: bool, p: (int, Byte))
    requires LoadRun(device, chip, log, lines, stage).1 == 0
    requires WellPlaced(Scan(lines).0) && Consistent(Stream(Scan(lines).0))
    requires p in Stream(Scan(lines).0) && p.0 != CpucsAddr(chip)
    ensures ByteAt(LoadRun(device, chip, log, lines, stage).0.log, RAM_OPS, p.0) == Some(p.1)
  {
    LoadDelivers(device, chip, log, lines, stage);
    LoadedFileIsGood(device, chip, log, lines, stage);
    MergePreservesStream(Scan(lines).0);
    AddedMemory(chip, log, LoadRun(device, chip, log, lines, stage).0.log, Segments(lines), stage, p);
  }

  lemma {:induction false} AddedMemory(chip: Chip, log: seq<Xfer>, log': seq<Xfer>, segs: seq<Block>, stage: bool, p: (int, Byte))
    requires Adds(log, log', segs, chip, Expected(chip, segs, stage))
    requires Consistent(Stream(segs)) && p in Stream(segs) && p.0 != CpucsAddr(chip)
    ensures ByteAt(log', RAM_OPS, p.0) == Some(p.1)
  {
    var d := log'[|log|..];
    assert log + d == log';
    var r := ByteIsDelivered(chip, segs, stage, p);
    var n := DeliveredIn(d, r);
    forall j | 0 <= j < |d| && d[j].request.op in RAM_OPS && OffsetOf(d[j].request, p.0) < |d[j].request.data|
      ensures d[j].request.data[OffsetOf(d[j].request, p.0)] == p.1
    {
      assert OfImage(d[j].request, segs, chip);
      CoveringRequestAgrees(chip, segs, d[j].request, p);
    }
    ByteAtAgreed(log, d, p.0, p.1, n);
  }

  lemma {:induction false} SelectHas(chip: Chip, segs: seq<Block>, k: nat)
    requires k < |segs|
    ensures var external := External(chip, segs[k]);
            Request(RamOp(external), segs[k].addr, segs[k].data)
            in AsRequests(Select(chip, segs, external), RamOp(external))
  {
    var n := |segs| - 1;
    var external := External(chip, segs[k]);
    var r := Request(RamOp(external), segs[k].addr, segs[k].data);
    var sel := Select(chip, segs[..n], external);
    if k < n {
      SelectHas(chip, segs[..n], k);
      var j :| 0 <= j < |sel| && AsRequests(sel, RamOp(external))[j] == r;
      assert Select(chip, segs, external)[j] == sel[j];
      assert AsRequests(Select(chip, segs, external), RamOp(external))[j] == r;
    } else {
      assert AsRequests(Select(chip, segs, external), RamOp(external))[|sel|] == r;
    }
  }

  // ---------------------------------------------------------------------
  // When a load succeeds
  // ---------------------------------------------------------------------

  lemma {:induction false} GrantingPass(chip: Chip, s: State, segs: seq<Block>)
    requires s.ctx.Ram?
    ensures PokeAll(Granting(), chip, s, segs).1 == (s.ctx.mode != InternalOnly || StaysOnChip(chip, segs))
    decreases |segs|
  {
    if segs != [] {
      var front, last := segs[..|segs| - 1], segs[|segs| - 1];
      GrantingPass(chip, s, front);
      PokeAllKeepsMode(Granting(), chip, s, front);
      assert segs == front + [last];
      assert StaysOnChip(chip, segs) <==> StaysOnChip(chip, front) && !External(chip, last);
    }
  }

  /** On a device that accepts every request, a one-stage load succeeds exactly when the file has no
      bad line and no segment that leaves the chip. */
  lemma {:induction false} OnePhaseSucceedsIff(chip: Chip, log: seq<Xfer>, lines: seq<string>)
    ensures LoadRun(Granting(), chip, log, lines, false).1 == 0
            <==> !Scan(lines).1.BadLine? && StaysOnChip(chip, Segments(lines))
  {
    ScanCodesNegative(lines);
    var log1 := CpucsWritten(Granting(), log, CpucsAddr(chip), false).0;
    GrantingPass(chip, State(Ram(InternalOnly, 0, 0), log1), Segments(lines));
  }

  /** A load with a second stage succeeds exactly when the file has no bad line, wherever it goes. */
  lemma {:induction false} TwoPhasesSucceedIff(chip: Chip, log: seq<Xfer>, lines: seq<string>)
    ensures LoadRun(Granting(), chip, log, lines, true).1 == 0 <==> !Scan(lines).1.BadLine?
  {
    ScanCodesNegative(lines);
    var device, segs := Granting(), Segments(lines);
    var s0 := State(Ram(SkipInternal, 0, 0), log);
    GrantingPass(chip, s0, segs);
    ParsedKeepsMode(device, chip, s0, lines);
    var s1 := Parsed(device, chip, s0, lines).0;
    GrantingPass(chip, State(s1.ctx.(mode := SkipExternal), CpucsWritten(device, s1.log, CpucsAddr(chip), false).0), segs);
  }
}
