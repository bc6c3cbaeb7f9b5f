// The Amontec JTAGkey back end (jtagkey.c): parallel-port transfers become bit-bang bytes, repeats
// are dropped, writes wait in a buffer, and reads are answered from the bytes that come back.
module JtagKey {
  import opened Tap

  const USBBUFSIZE := 1048576

  const PP_DATA := 0
  const PP_STATUS := 1
  const PP_READ := 10
  const PP_WRITE := 13

  const PP_TDI: bv8 := 0x01
  const PP_TCK: bv8 := 0x02
  const PP_TMS: bv8 := 0x04
  const PP_CTRL: bv8 := 0x08
  const PP_PROG: bv8 := 0x10
  const PP_TDO: bv8 := 0x10

  const PIN_TCK: bv8 := 0x01
  const PIN_TDI: bv8 := 0x02
  const PIN_TDO: bv8 := 0x04
  const PIN_TMS: bv8 := 0x08
  const PIN_OEN: bv8 := 0x10

  datatype Transfer = Transfer(port: int, cmd: int, byte: bv8)

  predicate High(v: bv8, mask: bv8) { v & mask != 0 }

  /** The pin byte for a value written to the data port. */
  function Pins(v: bv8): bv8 {
    var tdi := if High(v, PP_TDI) then PIN_TDI else 0;
    var tck := if High(v, PP_TCK) then PIN_TCK else 0;
    var tms := if High(v, PP_TMS) then PIN_TMS else 0;
    if High(v, PP_CTRL) then PIN_OEN else tdi | tck | tms
  }

  /** The lines as the parallel port means them, and as the pin byte sets them. */
  function PortLevel(v: bv8): Level { Level(High(v, PP_TCK), High(v, PP_TMS), High(v, PP_TDI)) }

  function PinLevel(p: bv8): Level { Level(High(p, PIN_TCK), High(p, PIN_TMS), High(p, PIN_TDI)) }

  /** The pins carry the port's levels exactly when CTRL is clear, or all three lines are low. */
  lemma {:induction false} PinsCarryLevels(v: bv8)
    ensures PinLevel(Pins(v)) == PortLevel(v) <==> !High(v, PP_CTRL) || PortLevel(v) == Level(false, false, false)
  {}

  /** The pin byte, bit by bit: CTRL alone disables the output and leaves all lines low. */
  lemma {:induction false} PinsTell(v: bv8)
    ensures v & 0x08 != 0 ==> Pins(v) == 0x10
    ensures v & 0x08 == 0 ==>
              && (Pins(v) & 0x01 != 0 <==> v & 0x02 != 0) && (Pins(v) & 0x02 != 0 <==> v & 0x01 != 0)
              && (Pins(v) & 0x08 != 0 <==> v & 0x04 != 0) && Pins(v) & 0xf4 == 0
  {}

  // ---------------------------------------------------------------------
  // One batch of transfers
  // ---------------------------------------------------------------------

  predicate IsRead(t: Transfer) { t.cmd == PP_READ }

  predicate IsDataWrite(t: Transfer, base: int) { t.port == base + PP_DATA && t.cmd == PP_WRITE }

  predicate IsStatusRead(t: Transfer, base: int) { t.port == base + PP_STATUS && t.cmd == PP_READ }

  predicate HasRead(ts: seq<Transfer>) { exists i :: 0 <= i < |ts| && IsRead(ts[i]) }

  /** The value last written to the data port before transfer n of the batch. */
  function LastWrite(ts: seq<Transfer>, base: int, n: nat, w: bv8): bv8
    requires n <= |ts|
  {
    if n == 0 then w
    else if IsDataWrite(ts[n - 1], base) then ts[n - 1].byte
    else LastWrite(ts, base, n - 1, w)
  }

  /** The pin byte in force before transfer n of the batch. */
  function LastData(ts: seq<Transfer>, base: int, n: nat, d: bv8): bv8
    requires n <= |ts|
  {
    if n == 0 then d
    else if IsDataWrite(ts[n - 1], base) then Pins(ts[n - 1].byte)
    else LastData(ts, base, n - 1, d)
  }

  /** Whether the send loop emits a byte for transfer i. */
  predicate Emits(ts: seq<Transfer>, base: int, i: nat, d: bv8)
    requires i < |ts|
  {
    IsRead(ts[i]) || LastData(ts, base, i + 1, d) != LastData(ts, base, i, d) || i == |ts| - 1
  }

  /** The bytes the send loop emits for the first n transfers. */
  function Emitted(ts: seq<Transfer>, base: int, n: nat, d: bv8): (bytes: seq<bv8>)
    requires n <= |ts|
    ensures |bytes| <= n
  {
    if n == 0 then []
    else
      var front := Emitted(ts, base, n - 1, d);
      if Emits(ts, base, n - 1, d) then front + [LastData(ts, base, n, d)] else front
  }

  /** Whether the reply loop steps to the next received byte for transfer i. */
  predicate Steps(ts: seq<Transfer>, base: int, i: nat, w: bv8)
    requires i < |ts|
  {
    IsRead(ts[i]) || ts[i].byte != LastWrite(ts, base, i, w) || i == |ts| - 1
  }

  /** How many received bytes the reply loop has stepped over before transfer n. */
  function Stepped(ts: seq<Transfer>, base: int, n: nat, w: bv8): (k: nat)
    requires n <= |ts|
    ensures k <= n
  {
    if n == 0 then 0
    else Stepped(ts, base, n - 1, w) + if Steps(ts, base, n - 1, w) then 1 else 0
  }

  /** The status port value for a received byte, given the last data port write. */
  function Status(data: bv8, lastWrite: bv8): bv8 {
    var tdo := if High(data, PIN_TDO) && High(lastWrite, PP_PROG) then PP_TDO else 0;
    var prog := if High(lastWrite, PP_PROG) then 0 else 0x08;
    tdo | prog | if High(lastWrite, 0x40) then 0x20 else 0x80
  }

  /** What a status byte tells about a sample and the last data port write, bit by bit: TDO while PROG was
      written high, PROG inverted, bit 6 looped back to one of two bits, and nothing else. */
  predicate Tells(status: bv8, sample: bv8, written: bv8) {
    && (status & 0x10 != 0 <==> sample & 0x04 != 0 && written & 0x10 != 0)
    && (status & 0x08 != 0 <==> written & 0x10 == 0)
    && (status & 0x20 != 0 <==> written & 0x40 != 0)
    && (status & 0x80 != 0 <==> written & 0x40 == 0)
    && status & 0x47 == 0
  }

  lemma {:induction false} StatusTells(data: bv8, lastWrite: bv8)
    ensures Tells(Status(data, lastWrite), data, lastWrite)
  {}

  /** Only one byte tells it. */
  lemma {:induction false} TellsOne(a: bv8, b: bv8, sample: bv8, written: bv8)
    requires Tells(a, sample, written) && Tells(b, sample, written)
    ensures a == b
  {}

  /** Transfer i after the call. */
  function Answered(ts: seq<Transfer>, base: int, i: nat, w: bv8, received: seq<bv8>): Transfer
    requires i < |ts| <= |received| - 1
  {
    if IsStatusRead(ts[i], base)
    then ts[i].(byte := Status(received[Stepped(ts, base, i + 1, w)], LastWrite(ts, base, i, w)))
    else ts[i]
  }

  /** The return value: the send loop complains about odd commands on the data port. */
  function SendRet(ts: seq<Transfer>, base: int, n: nat): int
    requires n <= |ts|
  {
    if n == 0 then 0
    else
      var t := ts[n - 1];
      if t.port == base + PP_DATA && t.cmd == PP_READ then 0
      else if t.port == base + PP_DATA && t.cmd != PP_WRITE then -1
      else SendRet(ts, base, n - 1)
  }

  /** And so does the reply loop about the status port, clearing the code on other ports. */
  function ReplyRet(ts: seq<Transfer>, base: int, n: nat, w: bv8): int
    requires n <= |ts|
  {
    if n == 0 then SendRet(ts, base, |ts|)
    else
      var t, before := ts[n - 1], ReplyRet(ts, base, n - 1, w);
      if !Steps(ts, base, n - 1, w) || t.port == base + PP_DATA then before
      else if t.port != base + PP_STATUS || t.cmd == PP_WRITE then 0
      else if t.cmd == PP_READ then before
      else -1
  }

  /** What one more transfer adds to the batch functions. */
  lemma {:induction false} Unfold(ts: seq<Transfer>, base: int, i: nat, d: bv8, w: bv8)
    requires i < |ts|
    ensures LastData(ts, base, i + 1, d) == if IsDataWrite(ts[i], base) then Pins(ts[i].byte) else LastData(ts, base, i, d)
    ensures LastWrite(ts, base, i + 1, w) == if IsDataWrite(ts[i], base) then ts[i].byte else LastWrite(ts, base, i, w)
    ensures Emitted(ts, base, i + 1, d) == if Emits(ts, base, i, d)
                                           then Emitted(ts, base, i, d) + [LastData(ts, base, i + 1, d)]
                                           else Emitted(ts, base, i, d)
    ensures SendRet(ts, base, i + 1)
         == if ts[i].port != base + PP_DATA || ts[i].cmd == PP_WRITE then SendRet(ts, base, i)
            else if ts[i].cmd == PP_READ then 0 else -1
  {}

  // ---------------------------------------------------------------------
  // The driver state
  // ---------------------------------------------------------------------

  /** The pin levels the adapter samples when it clocks out its k-th byte: any function at all. */
  type Adapter = nat -> bv8

  datatype State = State(sent: seq<bv8>, pending: seq<bv8>, received: seq<bv8>, lastData: bv8, lastWrite: bv8)

  predicate Proper(s: State) {
    |s.received| == USBBUFSIZE && |s.pending| <= USBBUFSIZE && s.lastData == Pins(s.lastWrite)
  }

  /** The next n bytes the adapter returns, over the front of what was read before. */
  function ReadInto(adapter: Adapter, at: nat, n: nat, before: seq<bv8>): seq<bv8>
    requires n <= |before|
  {
    seq(n, k requires 0 <= k < n => adapter(at + k)) + before[n..]
  }

  /** Synchronous bit-bang: as many bytes come back as go out. */
  function Exchange(adapter: Adapter, s: State): State
    requires |s.pending| <= |s.received|
  {
    var n := |s.pending|;
    s.(sent := s.sent + s.pending, pending := [], received := ReadInto(adapter, |s.sent|, n, s.received))
  }

  /** Old writes go out before a batch that reads, or one that might not fit behind them. */
  function MakeRoom(adapter: Adapter, s: State, ts: seq<Transfer>): State
    requires |s.pending| <= |s.received|
  {
    if |s.pending| > USBBUFSIZE - |ts| || (HasRead(ts) && s.pending != []) then Exchange(adapter, s) else s
  }

  function Send(s: State, ts: seq<Transfer>, base: int): State {
    State(s.sent, s.pending + Emitted(ts, base, |ts|, s.lastData), s.received,
          LastData(ts, base, |ts|, s.lastData), LastWrite(ts, base, |ts|, s.lastWrite))
  }

  /** The state after one call of jtagkey_transfer. */
  function Called(adapter: Adapter, s: State, ts: seq<Transfer>, base: int): State
    requires Proper(s) && |ts| < USBBUFSIZE
  {
    var sent := Send(MakeRoom(adapter, s, ts), ts, base);
    if HasRead(ts) then Exchange(adapter, sent.(pending := sent.pending + [sent.lastData])) else sent
  }

  lemma {:induction false} LastDataIsPins(ts: seq<Transfer>, base: int, n: nat, w: bv8)
    requires n <= |ts|
    ensures LastData(ts, base, n, Pins(w)) == Pins(LastWrite(ts, base, n, w))
  {
    if n > 0 {
      LastDataIsPins(ts, base, n - 1, w);
    }
  }

  /** Both buffers are respected, and last_data stays the pin byte of last_write, call after call. */
  lemma {:induction false} CalledProper(adapter: Adapter, s: State, ts: seq<Transfer>, base: int)
    requires Proper(s) && |ts| < USBBUFSIZE
    ensures Proper(Called(adapter, s, ts, base))
    ensures HasRead(ts) ==> Called(adapter, s, ts, base).pending == []
  {
    LastDataIsPins(ts, base, |ts|, s.lastWrite);
  }

  // ---------------------------------------------------------------------
  // The driver
  // ---------------------------------------------------------------------

  class Driver {
    const adapter: Adapter
    var sent: seq<bv8>
    const writebuf: array<bv8>
    const readbuf: array<bv8>
    var writepos: nat
    var lastData: bv8
    var lastWrite: bv8

    ghost predicate Valid()
      reads this, writebuf, readbuf
    {
      && writebuf != readbuf
      && writebuf.Length == USBBUFSIZE && readbuf.Length == USBBUFSIZE
      && writepos <= USBBUFSIZE && lastData == Pins(lastWrite)
    }

    /** The batch is not one of the driver's own buffers. */
    ghost predicate Apart(tr: array<Transfer>) {
      tr as object != writebuf && tr as object != readbuf
    }

    ghost function Now(): State
      requires Valid()
      reads this, writebuf, readbuf
    {
      State(sent, writebuf[..writepos], readbuf[..], lastData, lastWrite)
    }

    constructor (adapter: Adapter)
      ensures Valid() && fresh(writebuf) && fresh(readbuf)
      ensures sent == [] && writepos == 0 && lastData == 0 && lastWrite == 0
    {
      this.adapter := adapter;
      sent, writepos, lastData, lastWrite := [], 0, 0, 0;
      writebuf := new bv8[USBBUFSIZE];
      readbuf := new bv8[USBBUFSIZE];
    }

    /** Write the buffer out while as many bytes are read back. */
    method ExchangeBuffer()
      requires Valid()
      modifies this`sent, this`writepos, readbuf
      ensures Valid() && Now() == Exchange(adapter, old(Now()))
    {
      ReadBack();
      sent := sent + writebuf[..writepos];
      writepos := 0;
    }

    /** The bytes read back fill the front of the read buffer. */
    method ReadBack()
      requires writepos <= readbuf.Length
      modifies readbuf
      ensures readbuf[..] == ReadInto(adapter, |sent|, writepos, old(readbuf[..]))
    {
      ghost var before := readbuf[..];
      var i := 0;
      while i < writepos
        invariant i <= writepos
        invariant readbuf[i..] == before[i..]
        invariant forall k :: 0 <= k < i ==> readbuf[k] == adapter(|sent| + k)
      {
        readbuf[i] := adapter(|sent| + i);
        i := i + 1;
      }
      assert readbuf[..] == readbuf[..writepos] + readbuf[writepos..];
    }

    /** The pin byte, line by line. */
    static method PinByte(v: bv8) returns (data: bv8)
      ensures data == Pins(v)
    {
      data := 0;
      if High(v, PP_TDI) { data := data | PIN_TDI; }
      if High(v, PP_TCK) { data := data | PIN_TCK; }
      if High(v, PP_TMS) { data := data | PIN_TMS; }
      if High(v, PP_CTRL) { data := PIN_OEN; }
    }

    /** Buffer the byte for one transfer; it counts only for reads, changes and the last transfer. */
    method SendOne(t: Transfer, base: int, final: bool, ret0: int) returns (ret: int)
      requires Valid() && writepos < USBBUFSIZE
      modifies this`writepos, this`lastData, this`lastWrite, writebuf
      ensures Valid()
      ensures lastData == if IsDataWrite(t, base) then Pins(t.byte) else old(lastData)
      ensures lastWrite == if IsDataWrite(t, base) then t.byte else old(lastWrite)
      ensures writebuf[..writepos] ==
              if IsRead(t) || lastData != old(lastData) || final then old(writebuf[..writepos]) + [lastData]
              else old(writebuf[..writepos])
      ensures ret == if t.port != base + PP_DATA || t.cmd == PP_WRITE then ret0 else if t.cmd == PP_READ then 0 else -1
    {
      ret := ret0;
      writebuf[writepos] := lastData;
      var prevData := lastData;
      if t.port == base + PP_DATA {
        if t.cmd == PP_READ {
          ret := 0;
        } else if t.cmd == PP_WRITE {
          var data := PinByte(t.byte);
          writebuf[writepos] := data;
          lastData := data;
          lastWrite := t.byte;
        } else {
          ret := -1;
        }
      }
      if t.cmd == PP_READ || writebuf[writepos] != prevData || final {
        writepos := writepos + 1;
      }
    }

    method SendLoop(tr: array<Transfer>, base: int) returns (ret: int)
      requires Valid() && Apart(tr) && writepos + tr.Length <= USBBUFSIZE
      modifies this`writepos, this`lastData, this`lastWrite, writebuf
      ensures Valid() && Now() == Send(old(Now()), tr[..], base)
      ensures ret == SendRet(tr[..], base, tr.Length)
    {
      ret := 0;
      ghost var ts, d, w, held := tr[..], lastData, lastWrite, writebuf[..writepos];
      var i := 0;
      while i < tr.Length
        invariant i <= tr.Length && Valid() && tr[..] == ts
        invariant writepos <= |held| + i
        invariant writebuf[..writepos] == held + Emitted(ts, base, i, d)
        invariant lastData == LastData(ts, base, i, d)
        invariant lastWrite == LastWrite(ts, base, i, w)
        invariant ret == SendRet(ts, base, i)
      {
        ret := SendNext(tr[i], i == tr.Length - 1, base, ret, ts, i, d, w, held);
        i := i + 1;
      }
    }

    /** The loop body: the buffer holds what was pending and what the batch has emitted so far. */
    method SendNext(t: Transfer, final: bool, base: int, ret0: int, ghost ts: seq<Transfer>, ghost i: nat, ghost d: bv8,
                    ghost w: bv8, ghost held: seq<bv8>)
      returns (ret: int)
      requires Valid() && writepos < USBBUFSIZE && i < |ts| && ts[i] == t && (final <==> i == |ts| - 1)
      requires writebuf[..writepos] == held + Emitted(ts, base, i, d) && lastData == LastData(ts, base, i, d)
      requires lastWrite == LastWrite(ts, base, i, w) && ret0 == SendRet(ts, base, i)
      modifies this`writepos, this`lastData, this`lastWrite, writebuf
      ensures Valid() && old(writepos) <= writepos <= old(writepos) + 1
      ensures writebuf[..writepos] == held + Emitted(ts, base, i + 1, d) && lastData == LastData(ts, base, i + 1, d)
      ensures lastWrite == LastWrite(ts, base, i + 1, w) && ret == SendRet(ts, base, i + 1)
    {
      ghost var n, emitted := writepos, Emitted(ts, base, i, d);
      Unfold(ts, base, i, d, w);
      ret := SendOne(t, base, final, ret0);
      assert held + (emitted + [lastData]) == held + emitted + [lastData];
      assert |writebuf[..writepos]| == writepos;
    }

    method ReplyLoop(tr: array<Transfer>, base: int, ret0: int) returns (ret: int)
      requires tr.Length < USBBUFSIZE == readbuf.Length && Apart(tr) && ret0 == SendRet(tr[..], base, tr.Length)
      modifies this`lastWrite, tr
      ensures lastWrite == LastWrite(old(tr[..]), base, tr.Length, old(lastWrite))
      ensures ret == ReplyRet(old(tr[..]), base, tr.Length, old(lastWrite))
      ensures forall k :: 0 <= k < tr.Length ==> tr[k] == Answered(old(tr[..]), base, k, old(lastWrite), readbuf[..])
    {
      ret := ret0;
      ghost var ts, w, received := tr[..], lastWrite, readbuf[..];
      var readpos := 0;
      var i := 0;
      while i < tr.Length
        invariant i <= tr.Length && readpos == Stepped(ts, base, i, w)
        invariant lastWrite == LastWrite(ts, base, i, w) && ret == ReplyRet(ts, base, i, w)
        invariant forall k :: i <= k < tr.Length ==> tr[k] == ts[k]
        invariant forall k :: 0 <= k < i ==> tr[k] == Answered(ts, base, k, w, received)
      {
        var t, val := tr[i], tr[i].byte;
        if t.cmd != PP_READ && val == lastWrite && i != tr.Length - 1 {
          i := i + 1;
          continue;
        }
        readpos := readpos + 1;
        ghost var last := lastWrite;
        val, ret := ReplyOne(t, readbuf[readpos], base, ret);
        StatusTells(readbuf[readpos], last);
        if IsStatusRead(t, base) { TellsOne(val, Status(readbuf[readpos], last), readbuf[readpos], last); }
        tr[i] := t.(byte := val);
        i := i + 1;
      }
    }

    /** Answer one transfer that the loop does not skip. */
    method ReplyOne(t: Transfer, data: bv8, base: int, ret0: int) returns (val: bv8, ret: int)
      modifies this`lastWrite
      ensures lastWrite == if IsDataWrite(t, base) then t.byte else old(lastWrite)
      ensures if IsStatusRead(t, base) then Tells(val, data, old(lastWrite)) else val == t.byte
      ensures ret == if t.port == base + PP_DATA || IsStatusRead(t, base) then ret0
                     else if t.port != base + PP_STATUS || t.cmd == PP_WRITE then 0 else -1
    {
      val, ret := t.byte, ret0;
      if t.port == base + PP_DATA {
        if t.cmd == PP_WRITE { lastWrite := val; }
      } else if t.port == base + PP_STATUS {
        if t.cmd == PP_READ {
          val := 0;
          if High(data, PIN_TDO) && High(lastWrite, PP_PROG) { val := val | PP_TDO; }
          if High(!lastWrite, PP_PROG) { val := val | 0x08; }
          val := val | if High(lastWrite, 0x40) then 0x20 else 0x80;
        } else if t.cmd == PP_WRITE {
          ret := 0;
        } else {
          ret := -1;
        }
      } else {
        ret := 0;
      }
    }

    method CountReads(tr: array<Transfer>) returns (nread: nat)
      ensures nread > 0 <==> HasRead(tr[..])
    {
      nread := 0;
      var i := 0;
      while i < tr.Length
        invariant i <= tr.Length
        invariant nread > 0 <==> exists k :: 0 <= k < i && IsRead(tr[k])
      {
        if tr[i].cmd == PP_READ {
          nread := nread + 1;
          assert IsRead(tr[i]);
        }
        i := i + 1;
      }
      assert nread > 0 ==> exists k :: 0 <= k < tr.Length && IsRead(tr[..][k]) by {
        if nread > 0 {
          var k :| 0 <= k < tr.Length && IsRead(tr[k]);
          assert IsRead(tr[..][k]);
        }
      }
    }

    /** The padding byte whose answer is the last read's, and the exchange. */
    method FlushWithPad()
      requires Valid() && writepos < USBBUFSIZE
      modifies this`sent, this`writepos, writebuf, readbuf
      ensures Valid()
      ensures Now() == Exchange(adapter, old(Now()).(pending := old(writebuf[..writepos]) + [lastData]))
    {
      writebuf[writepos] := lastData;
      writepos := writepos + 1;
      ExchangeBuffer();
    }

    method ClearOut(tr: array<Transfer>, nread: nat)
      requires Valid() && Apart(tr) && (nread > 0 <==> HasRead(tr[..]))
      modifies this`sent, this`writepos, readbuf
      ensures Valid() && Now() == MakeRoom(adapter, old(Now()), tr[..])
    {
      if writepos > USBBUFSIZE - tr.Length || (nread > 0 && writepos > 0) {
        ExchangeBuffer();
      }
    }

    /** jtagkey_transfer: the status reads of the batch are answered in place. */
    method TransferBatch(tr: array<Transfer>, base: int) returns (ret: int)
      requires Valid() && Apart(tr) && tr.Length < USBBUFSIZE
      modifies this, writebuf, readbuf, tr
      ensures Valid() && Now() == Called(adapter, old(Now()), old(tr[..]), base)
      ensures !HasRead(old(tr[..])) ==> tr[..] == old(tr[..]) && ret == SendRet(old(tr[..]), base, tr.Length)
      ensures HasRead(old(tr[..])) ==> ret == ReplyRet(old(tr[..]), base, tr.Length, old(lastWrite))
      ensures HasRead(old(tr[..])) ==> forall k :: 0 <= k < tr.Length ==>
                tr[k] == Answered(old(tr[..]), base, k, old(lastWrite), readbuf[..])
      ensures HasRead(old(tr[..])) ==> forall k :: 0 <= k < tr.Length && IsStatusRead(old(tr[..])[k], base) ==>
                Tells(tr[k].byte, readbuf[Stepped(old(tr[..]), base, k + 1, old(lastWrite))],
                      LastWrite(old(tr[..]), base, k, old(lastWrite)))
    {
      var nread := CountReads(tr);
      ClearOut(tr, nread);
      var lastCycWrite := lastWrite;
      ret := SendLoop(tr, base);
      if nread == 0 { return; }
      assert |Now().pending| == writepos;
      FlushWithPad();
      lastWrite := lastCycWrite;
      ret := ReplyLoop(tr, base, ret);
      forall data, last { StatusTells(data, last); }
    }
  }
}
