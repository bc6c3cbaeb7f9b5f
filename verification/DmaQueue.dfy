// Feeding scatter-gather entries to the 16-deep DMA command queue of the BlueNoC board
// (the command loops of bluenoc_read and bluenoc_write).
module DmaQueue {

  // ---------------------------------------------------------------------
  // Commands
  // ---------------------------------------------------------------------

  const END_OF_LIST: bv64 := 0x8000_0000_0000_0000
  const INTERRUPT: bv64 := 0x4000_0000_0000_0000
  const ADDR_MASK: bv64 := 0x0000_ffff_ffff_ffff
  const MAX_LENGTH: bv64 := 16384

  /** A mapped piece of the buffer. */
  datatype Piece = Piece(addr: bv64, len: bv64)

  function Command(p: Piece, last: bool): bv64 {
    (if last then END_OF_LIST else 0) | ((p.len & 0x3fff) << 48) | (p.addr & ADDR_MASK)
  }

  function WithInterrupt(cmd: bv64): bv64 { cmd | INTERRUPT }

  /** How the board reads a command; a zero length field means 16384 bytes. */
  function PieceOf(cmd: bv64): Piece {
    var field := (cmd >> 48) & 0x3fff;
    Piece(cmd & ADDR_MASK, if field == 0 then MAX_LENGTH else field)
  }

  predicate IsLast(cmd: bv64) { cmd & END_OF_LIST != 0 }

  predicate Interrupts(cmd: bv64) { cmd & INTERRUPT != 0 }

  predicate Encodable(p: Piece) { p.addr & ADDR_MASK == p.addr && 1 <= p.len <= MAX_LENGTH }

  /** The command the driver writes for a piece, with or without the interrupt bit. */
  function Sending(p: Piece, last: bool, intr: bool): bv64 {
    if intr then WithInterrupt(Command(p, last)) else Command(p, last)
  }

  lemma {:induction false} AddressField(p: Piece, last: bool, intr: bool)
    ensures Sending(p, last, intr) & ADDR_MASK == p.addr & ADDR_MASK
  {}

  lemma {:induction false} LengthField(p: Piece, last: bool, intr: bool)
    ensures (Sending(p, last, intr) >> 48) & 0x3fff == p.len & 0x3fff
  {}

  lemma {:induction false} LengthFits(len: bv64)
    ensures (if len & 0x3fff == 0 then MAX_LENGTH else len & 0x3fff) == len <==> 1 <= len <= MAX_LENGTH
  {}

  /** Neither flag is disturbed by the other fields, whatever the address and length. */
  lemma {:induction false} Flags(p: Piece, last: bool, intr: bool)
    ensures (IsLast(Sending(p, last, intr)) <==> last) && (Interrupts(Sending(p, last, intr)) <==> intr)
  {}

  /** The command, field by field: end of list in bit 63, interrupt in bit 62, length in bits 48 to 61, address in the
      48 bits below. */
  lemma {:induction false} CommandFields(p: Piece, last: bool, intr: bool)
    ensures var cmd := Sending(p, last, intr);
            && (cmd >> 63 == if last then 1 else 0) && ((cmd >> 62) & 1 == if intr then 1 else 0)
            && (cmd >> 48) & 0x3fff == p.len & 0x3fff && cmd & 0xffff_ffff_ffff == p.addr & 0xffff_ffff_ffff
  {}

  lemma {:induction false} DecodedAddress(p: Piece, last: bool, intr: bool)
    ensures PieceOf(Sending(p, last, intr)).addr == p.addr <==> p.addr & ADDR_MASK == p.addr
  {
    AddressField(p, last, intr);
  }

  lemma {:induction false} DecodedLength(p: Piece, last: bool, intr: bool)
    ensures PieceOf(Sending(p, last, intr)).len == p.len <==> 1 <= p.len <= MAX_LENGTH
  {
    LengthField(p, last, intr);
    LengthFits(p.len);
  }

  lemma {:induction false} EncodableDecodes(p: Piece, last: bool, intr: bool)
    requires Encodable(p)
    ensures PieceOf(Sending(p, last, intr)) == p
  {
    DecodedAddress(p, last, intr);
    DecodedLength(p, last, intr);
  }

  lemma {:induction false} DecodedIsEncodable(p: Piece, last: bool, intr: bool)
    requires PieceOf(Sending(p, last, intr)) == p
    ensures Encodable(p)
  {
    DecodedAddress(p, last, intr);
    DecodedLength(p, last, intr);
  }

  /** A command decodes to its piece exactly when the address has 48 bits and the length is from 1
      to 16384. */
  lemma {:induction false} CommandRoundTrip(p: Piece, last: bool, intr: bool)
    ensures PieceOf(Sending(p, last, intr)) == p <==> Encodable(p)
  {
    if Encodable(p) {
      EncodableDecodes(p, last, intr);
    } else if PieceOf(Sending(p, last, intr)) == p {
      DecodedIsEncodable(p, last, intr);
    }
  }

  // ---------------------------------------------------------------------
  // What a run of the loop may send
  // ---------------------------------------------------------------------

  /** The commands carry the first pieces of the list, flagged as the end of the list only for the
      last piece of all. */
  ghost predicate Carries(cmds: seq<bv64>, pieces: seq<Piece>) {
    && |cmds| <= |pieces|
    && forall i :: 0 <= i < |cmds| ==>
                     && (Encodable(pieces[i]) ==> PieceOf(cmds[i]) == pieces[i])
                     && (IsLast(cmds[i]) <==> i == |pieces| - 1)
  }

  /** Exactly one command ends the list, and it is the last one sent. */
  ghost predicate EndsOnce(cmds: seq<bv64>) {
    && cmds != [] && IsLast(cmds[|cmds| - 1])
    && forall i :: 0 <= i < |cmds| - 1 ==> !IsLast(cmds[i])
  }

  /** No command has been sent, or the last one asks for an interrupt. */
  ghost predicate WillHear(cmds: seq<bv64>) { cmds == [] || Interrupts(cmds[|cmds| - 1]) }

  /** The commands sent when the loop ends in each way. */
  ghost predicate Ended(outcome: Outcome, cmds: seq<bv64>, pieces: seq<Piece>, reading: bool) {
    match outcome
    case AllSent => |cmds| == |pieces| && Carries(cmds, pieces) && EndsOnce(cmds)
    case Flushed => reading && EndsOnce(cmds) && Carries(cmds[..|cmds| - 1], pieces) && cmds[|cmds| - 1] == END_OF_LIST
    case Interrupted => |cmds| < |pieces| && Carries(cmds, pieces)
    case Asleep => |cmds| < |pieces| && Carries(cmds, pieces)
  }

  lemma {:induction false} CarriesSnoc(cmds: seq<bv64>, pieces: seq<Piece>, intr: bool)
    requires Carries(cmds, pieces) && |cmds| < |pieces|
    ensures Carries(cmds + [Sending(pieces[|cmds|], |cmds| == |pieces| - 1, intr)], pieces)
  {
    if Encodable(pieces[|cmds|]) { EncodableDecodes(pieces[|cmds|], |cmds| == |pieces| - 1, intr); }
    Flags(pieces[|cmds|], |cmds| == |pieces| - 1, intr);
  }

  lemma {:induction false} CarriedEndsOnce(cmds: seq<bv64>, pieces: seq<Piece>)
    requires Carries(cmds, pieces) && |cmds| == |pieces| != 0
    ensures EndsOnce(cmds)
  {}

  lemma {:induction false} FlushEnds(cmds: seq<bv64>, pieces: seq<Piece>)
    requires Carries(cmds, pieces) && |cmds| < |pieces|
    ensures EndsOnce(cmds + [END_OF_LIST])
  {
    assert IsLast(END_OF_LIST);
  }

  // ---------------------------------------------------------------------
  // The loop and its environment
  // ---------------------------------------------------------------------

  const DEPTH := 16

  /** The loop sends the whole list, or ends it early because the board flushed a read, or is ended by a signal,
      or waits forever for a queue that stays full. */
  datatype Outcome = AllSent | Flushed | Interrupted | Asleep

  /** How a wait ends. */
  datatype Wake = Ready | Signalled | Never

  datatype Slot = Free(slots: nat) | Stop(outcome: Outcome)

  /** The figures of the sending loop: queue level, slots believed free, commands sent, whether the queue was
      overrun, and the cached level. */
  datatype Tally = Tally(level: nat, slots: nat, sent: nat, overrun: bool, cached: nat)

  /** What the loop keeps, for a list of so many pieces started at a true and a cached level: without a stale
      level the slots are real, or the whole list fits; on a stuck board everything sent stays queued. */
  ghost predicate Sound(t: Tally, level0: nat, cached0: nat, count: nat, stuck: bool) {
    && t.sent <= count
    && (level0 <= cached0 || level0 + count <= DEPTH ==>
          !t.overrun && (t.level + t.slots <= DEPTH || t.level + count - t.sent <= DEPTH))
    && (stuck ==>
          t.level >= level0 + t.sent && t.sent + t.slots + cached0 >= DEPTH && (t.level > DEPTH ==> t.overrun))
    && (stuck && cached0 + count <= DEPTH ==>
          t.slots + cached0 + t.sent == DEPTH && t.level == level0 + t.sent && t.cached == cached0)
  }

  /** Finding a slot and sending one command keeps it. */
  lemma {:induction false} SoundStep(t: Tally, u: Tally, level0: nat, cached0: nat, count: nat, stuck: bool)
    requires Sound(t, level0, cached0, count, stuck) && t.sent < count
    requires u.sent == t.sent && u.overrun == t.overrun && u.level <= t.level && (stuck ==> u.level == t.level)
    requires t.slots > 0 ==> u.slots == t.slots && (stuck ==> u.cached == t.cached)
    requires t.slots == 0 ==> u.slots > 0 && (u.level + u.slots <= DEPTH || u.overrun)
    ensures Sound(Tally(u.level + 1, u.slots - 1, u.sent + 1, u.overrun || u.level >= DEPTH, u.cached),
                  level0, cached0, count, stuck)
  {}

  class Channel {
    /** Whether this board has stopped: it drains no command and raises no interrupt. */
    const stuck: bool
    /** Whether a signal arrives while the driver waits for the n-th time, and how often it has waited. */
    const signal: nat -> bool
    var waits: nat
    /** Commands waiting in the board's queue; the driver only sees it through the status register. */
    var level: nat
    /** Whether a command was ever written to a full queue. */
    var overrun: bool
    /** The driver's copy of the status register. */
    var cachedLevel: nat
    var cachedFull: bool
    var cachedFlushed: bool
    /** Commands written since the transfer began. */
    var sent: seq<bv64>

    constructor (stuck: bool, signal: nat -> bool)
      ensures Valid() && this.stuck == stuck && this.signal == signal && waits == 0
      ensures level == 0 == cachedLevel && !overrun && !cachedFlushed && sent == []
    {
      this.stuck, this.signal, waits := stuck, signal, 0;
      level, overrun, sent := 0, false, [];
      cachedLevel, cachedFull, cachedFlushed := 0, false, false;
    }

    /** The queue holds at most 16 commands unless it was overrun, and the cached full bit belongs to
        the cached level. */
    ghost predicate Valid()
      reads this`level, this`overrun, this`cachedLevel, this`cachedFull
    {
      && (level <= DEPTH || overrun) && cachedLevel <= DEPTH
      && (cachedFull <==> cachedLevel == DEPTH)
    }

    /** update_dma_buffer_status: the register shows the true level; a read may have been flushed. */
    method UpdateStatus()
      requires Valid()
      modifies this`cachedLevel, this`cachedFull, this`cachedFlushed
      ensures Valid() && cachedLevel == if level <= DEPTH then level else DEPTH
    {
      cachedLevel := if level <= DEPTH then level else DEPTH;
      cachedFull := level >= DEPTH;
      cachedFlushed := *;
    }

    /** Time passes: the board drains commands as it likes, and interrupts refresh the cached status. */
    method Elapse()
      requires Valid()
      modifies this`level, this`cachedLevel, this`cachedFull, this`cachedFlushed
      ensures Valid() && level <= old(level) && (stuck ==> level == old(level))
      ensures cachedLevel == old(cachedLevel) || old(level) > DEPTH || level <= cachedLevel <= old(level)
      ensures stuck ==> cachedLevel == old(cachedLevel)
    {
      var before: nat, after: nat, interrupted: bool := *, *, *;
      if before <= level && !stuck { level := level - before; }
      if interrupted && !stuck { UpdateStatus(); }
      if after <= level && !stuck { level := level - after; }
    }

    /** Write a command register. */
    method Send(cmd: bv64)
      requires Valid()
      modifies this`level, this`overrun, this`sent
      ensures Valid() && level == old(level) + 1 && sent == old(sent) + [cmd]
      ensures overrun == (old(overrun) || old(level) >= DEPTH)
    {
      overrun := overrun || level >= DEPTH;
      level := level + 1;
      sent := sent + [cmd];
    }

    /** Sleep until the cached status says the queue is not full, or a signal arrives. The driver may
        only sleep when the last command it sent asks for an interrupt, or when it has sent none. */
    method WaitNotFull() returns (wake: Wake)
      requires Valid() && (level <= cachedLevel || overrun)
      requires WillHear(sent)
      modifies this`waits, this`level, this`cachedLevel, this`cachedFull, this`cachedFlushed
      ensures Valid() && (level <= cachedLevel || overrun)
      ensures level <= old(level) && (stuck ==> level == old(level))
      ensures waits == old(waits) + 1 && (wake == Signalled <==> signal(old(waits)))
      ensures wake == Ready ==> !cachedFull
      ensures wake == Never ==> cachedFull
    {
      Elapse();
      waits := waits + 1;
      wake := if signal(waits - 1) then Signalled else if cachedFull then Never else Ready;
    }

    /** The outcome is an interruption if and only if a signal came in one of the waits since the n-th, and it
        was the last of them. */
    ghost predicate Heard(n: nat, interrupted: bool)
      reads this`waits
    {
      && n <= waits
      && (interrupted ==> waits > n && signal(waits - 1))
      && forall k :: n <= k < waits ==> (signal(k) <==> interrupted && k == waits - 1)
    }

    /** An early end has its reason: a wait for a queue that stays full, or a flush shown by the status. */
    ghost predicate Explained(n: nat, outcome: Outcome)
      reads this`waits, this`cachedFull, this`cachedFlushed
    {
      && (outcome == Asleep ==> waits > n && cachedFull)
      && (outcome == Flushed ==> waits > n && cachedFlushed)
    }

    /** Wait until a slot is free, unless a signal or a flushed read ends the transfer first. */
    method AwaitSlot(reading: bool) returns (slot: Slot)
      requires Valid()
      requires WillHear(sent)
      modifies this`waits, this`level, this`overrun, this`sent, this`cachedLevel, this`cachedFull, this`cachedFlushed
      ensures Valid() && overrun == old(overrun)
      ensures slot.Free? ==>
                && sent == old(sent) && slot.slots > 0 && (level + slot.slots <= DEPTH || overrun)
                && level <= old(level) && (stuck ==> level == old(level))
      ensures slot.Stop? ==>
                && (stuck ==> level >= old(level)) && slot.outcome != AllSent
                && (if slot.outcome == Flushed then reading && sent == old(sent) + [END_OF_LIST] else sent == old(sent))
                && Explained(old(waits), slot.outcome)
      ensures Heard(old(waits), slot == Stop(Interrupted))
    {
      var slotsFree := 0;
      while slotsFree == 0
        invariant Valid() && overrun == old(overrun) && sent == old(sent)
        invariant level <= old(level) && (stuck ==> level == old(level))
        invariant Heard(old(waits), false)
        invariant 0 <= slotsFree && (slotsFree > 0 ==> level + slotsFree <= DEPTH || overrun)
        decreases if slotsFree == 0 then 1 else 0
      {
        Elapse();
        UpdateStatus();
        var wake := WaitNotFull();
        if wake != Ready { return Stop(if wake == Signalled then Interrupted else Asleep); }
        if reading && cachedFlushed {
          Send(END_OF_LIST);
          return Stop(Flushed);
        }
        slotsFree := DEPTH - cachedLevel;
      }
      slot := Free(slotsFree);
    }

    /** Whether the cached level hides commands of an earlier transfer that this list would pile on. */
    ghost predicate Stale(count: nat)
      reads this`level, this`cachedLevel
    {
      level > cachedLevel && level + count > DEPTH
    }

    /** The command loop for a list of pieces; a read stops early when the board flushes it. The queue
        is overrun only from a stale status, and from a stale status a stuck board is always overrun. */
    method SendPieces(pieces: seq<Piece>, reading: bool) returns (outcome: Outcome)
      requires Valid() && pieces != [] && sent == [] && !overrun
      modifies this`waits, this`level, this`overrun, this`sent, this`cachedLevel, this`cachedFull, this`cachedFlushed
      ensures Valid()
      ensures overrun ==> old(Stale(|pieces|))
      ensures stuck && old(Stale(|pieces|)) ==> overrun
      ensures stuck && old(cachedLevel) + |pieces| <= DEPTH ==>
                outcome == AllSent && level == old(level) + |pieces| && cachedLevel == old(cachedLevel)
      ensures Ended(outcome, sent, pieces, reading)
      ensures Heard(old(waits), outcome == Interrupted) && Explained(old(waits), outcome)
    {
      var slotsFree := DEPTH - cachedLevel;
      var n := 0;
      ghost var level0, cached0 := level, cachedLevel;
      while n < |pieces|
        invariant 0 <= n <= |pieces| && Valid() && 0 <= slotsFree
        invariant Sound(Tally(level, slotsFree, n, overrun, cachedLevel), level0, cached0, |pieces|, stuck)
        invariant |sent| == n && Carries(sent, pieces)
        invariant slotsFree == 0 ==> WillHear(sent)
        invariant Heard(old(waits), false)
      {
        ghost var t := Tally(level, slotsFree, n, overrun, cachedLevel);
        var slot := NextSlot(pieces, slotsFree, reading);
        if slot.Stop? { return slot.outcome; }
        slotsFree := slot.slots;
        SoundStep(t, Tally(level, slotsFree, n, overrun, cachedLevel), level0, cached0, |pieces|, stuck);
        SendPiece(pieces, n, slotsFree == 1);
        slotsFree := slotsFree - 1;
        n := n + 1;
      }
      CarriedEndsOnce(sent, pieces);
      outcome := AllSent;
    }

    /** Before each piece time passes, and if no slot is known to be free the driver waits for one. */
    method NextSlot(pieces: seq<Piece>, slotsFree: nat, reading: bool) returns (slot: Slot)
      requires Valid() && |sent| < |pieces| && Carries(sent, pieces)
      requires slotsFree == 0 ==> WillHear(sent)
      modifies this`waits, this`level, this`overrun, this`sent, this`cachedLevel, this`cachedFull, this`cachedFlushed
      ensures Valid() && overrun == old(overrun)
      ensures slotsFree > 0 ==> slot == Free(slotsFree) && (stuck ==> cachedLevel == old(cachedLevel))
      ensures slot.Free? ==>
                && sent == old(sent) && slot.slots > 0 && level <= old(level) && (stuck ==> level == old(level))
                && (slotsFree == 0 ==> level + slot.slots <= DEPTH || overrun)
      ensures slot.Stop? ==> slot.outcome != AllSent && (stuck ==> level >= old(level))
      ensures slot.Stop? ==> Ended(slot.outcome, sent, pieces, reading) && Explained(old(waits), slot.outcome)
      ensures Heard(old(waits), slot == Stop(Interrupted))
    {
      Elapse();
      slot := Free(slotsFree);
      if slotsFree == 0 {
        ghost var before := sent;
        FlushEnds(before, pieces);
        slot := AwaitSlot(reading);
        assert slot.Stop? && slot.outcome == Flushed ==> sent[..|sent| - 1] == before;
      }
    }

    /** Waiting for the transfer to complete; a signal ends the wait, and nothing is read back then. */
    method WaitCompleted() returns (completed: bool)
      requires Valid()
      modifies this`level, this`cachedLevel, this`cachedFull, this`cachedFlushed
      ensures Valid() && level <= old(level)
      ensures stuck ==> !completed && level == old(level) && cachedLevel == old(cachedLevel)
    {
      Elapse();
      completed := *;
      if stuck { completed := false; }
    }

    /** clear_dma_status, before a transfer: the levels are left alone. */
    method Begin()
      requires Valid()
      modifies this`sent, this`cachedFlushed
      ensures Valid() && sent == []
    {
      sent := [];
      cachedFlushed := false;
    }

    /** Form and write the command for one piece, asking for an interrupt if it takes the last slot. */
    method SendPiece(pieces: seq<Piece>, n: nat, lastSlot: bool)
      requires Valid() && |sent| == n < |pieces| && Carries(sent, pieces)
      modifies this`level, this`overrun, this`sent
      ensures Valid() && level == old(level) + 1 && overrun == (old(overrun) || old(level) >= DEPTH)
      ensures |sent| == n + 1 && Carries(sent, pieces)
      ensures Interrupts(sent[n]) <==> lastSlot
      ensures lastSlot ==> WillHear(sent)
    {
      var cmd := Command(pieces[n], n == |pieces| - 1);
      if lastSlot { cmd := WithInterrupt(cmd); }
      CarriesSnoc(sent, pieces, lastSlot);
      Flags(pieces[n], n == |pieces| - 1, lastSlot);
      Send(cmd);
    }
  }

  /** How the queue is overrun: a list is sent to a board that has stopped, a signal ends the wait for it,
      and the next transfer trusts the level cached before the first one. */
  method OverrunFromScratch(first: seq<Piece>, second: seq<Piece>, signal: nat -> bool) returns (c: Channel)
    requires 1 <= |first| <= DEPTH && 1 <= |second| && |first| + |second| > DEPTH
    ensures fresh(c) && c.Valid() && c.overrun
  {
    c := new Channel(true, signal);
    var outcome := c.SendPieces(first, false);
    var completed := c.WaitCompleted();
    c.Begin();
    assert c.Stale(|second|) && !c.overrun;
    outcome := c.SendPieces(second, false);
  }
}
