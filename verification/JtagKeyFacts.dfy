// What the write combining of jtagkey.c keeps: the TAP controller's behaviour over whole runs, and
// the pairing of reads with the bytes that answer them.
module JtagKeyFacts {
  import opened Tap
  import opened JtagKey

  // ---------------------------------------------------------------------
  // The TAP controller does not notice the combining
  // ---------------------------------------------------------------------

  /** A watcher of the pins, fed the bytes that go over the wire. */
  ghost function WatchPins(w: Watcher, bytes: seq<bv8>): Watcher {
    if bytes == [] then w else Watch(WatchPins(w, bytes[..|bytes| - 1]), PinLevel(bytes[|bytes| - 1]))
  }

  /** A watcher of the parallel port, fed the values written to it. */
  ghost function WatchPort(w: Watcher, values: seq<bv8>): Watcher {
    if values == [] then w else Watch(WatchPort(w, values[..|values| - 1]), PortLevel(values[|values| - 1]))
  }

  lemma {:induction false} WatchPinsSnoc(w: Watcher, bytes: seq<bv8>, p: bv8)
    ensures WatchPins(w, bytes + [p]) == Watch(WatchPins(w, bytes), PinLevel(p))
  {
    assert (bytes + [p])[..|bytes|] == bytes;
  }

  lemma {:induction false} WatchPinsConcat(w: Watcher, a: seq<bv8>, b: seq<bv8>)
    ensures WatchPins(w, a + b) == WatchPins(WatchPins(w, a), b)
    decreases |b|
  {
    if b == [] {
      assert a + b == a;
    } else {
      WatchPinsConcat(w, a, b[..|b| - 1]);
      assert a + b == (a + b[..|b| - 1]) + [b[|b| - 1]];
      WatchPinsSnoc(w, a + b[..|b| - 1], b[|b| - 1]);
    }
  }

  /** The values the first n transfers of a batch write to the data port. */
  ghost function Writes(ts: seq<Transfer>, base: int, n: nat): seq<bv8>
    requires n <= |ts|
  {
    if n == 0 then []
    else if IsDataWrite(ts[n - 1], base) then Writes(ts, base, n - 1) + [ts[n - 1].byte]
    else Writes(ts, base, n - 1)
  }

  ghost function AllPins(values: seq<bv8>): seq<bv8> {
    if values == [] then [] else AllPins(values[..|values| - 1]) + [Pins(values[|values| - 1])]
  }

  lemma {:induction false} AllPinsSnoc(values: seq<bv8>, v: bv8)
    ensures AllPins(values + [v]) == AllPins(values) + [Pins(v)]
  {
    assert (values + [v])[..|values|] == values;
  }

  lemma {:induction false} AllPinsConcat(a: seq<bv8>, b: seq<bv8>)
    ensures AllPins(a + b) == AllPins(a) + AllPins(b)
    decreases |b|
  {
    if b == [] {
      assert a + b == a;
    } else {
      var front, v := b[..|b| - 1], b[|b| - 1];
      AllPinsConcat(a, front);
      assert a + b == (a + front) + [v];
      AllPinsSnoc(a + front, v);
    }
  }

  /** The TCK level a watcher has seen last is the one in force. */
  ghost predicate InTune(w: Watcher, d: bv8) { w.tck == PinLevel(d).tck }

  lemma {:induction false} TapNext(w: Watcher, ts: seq<Transfer>, base: int, i: nat, d: bv8)
    requires i < |ts| && InTune(WatchPins(w, Emitted(ts, base, i, d)), LastData(ts, base, i, d))
    requires WatchPins(w, Emitted(ts, base, i, d)) == WatchPins(w, AllPins(Writes(ts, base, i)))
    ensures InTune(WatchPins(w, Emitted(ts, base, i + 1, d)), LastData(ts, base, i + 1, d))
    ensures WatchPins(w, Emitted(ts, base, i + 1, d)) == WatchPins(w, AllPins(Writes(ts, base, i + 1)))
  {
    var now, p := WatchPins(w, Emitted(ts, base, i, d)), LastData(ts, base, i + 1, d);
    Unfold(ts, base, i, d, 0);
    WatchPinsSnoc(w, Emitted(ts, base, i, d), p);
    if IsDataWrite(ts[i], base) {
      AllPinsSnoc(Writes(ts, base, i), ts[i].byte);
      WatchPinsSnoc(w, AllPins(Writes(ts, base, i)), p);
    }
    if p == LastData(ts, base, i, d) {
      RepeatUnnoticed(now, PinLevel(p));
    }
  }

  /** Within a batch, the emitted bytes show a watcher what the uncombined writes would. */
  lemma {:induction false} BatchTap(w: Watcher, ts: seq<Transfer>, base: int, n: nat, d: bv8)
    requires n <= |ts| && InTune(w, d)
    ensures WatchPins(w, Emitted(ts, base, n, d)) == WatchPins(w, AllPins(Writes(ts, base, n)))
    ensures InTune(WatchPins(w, Emitted(ts, base, n, d)), LastData(ts, base, n, d))
  {
    if n > 0 {
      BatchTap(w, ts, base, n - 1, d);
      TapNext(w, ts, base, n - 1, d);
    }
  }

  /** Everything that has gone, or is about to go, over the wire. */
  ghost function Wire(s: State): seq<bv8> { s.sent + s.pending }

  lemma {:induction false} CalledWire(adapter: Adapter, s: State, ts: seq<Transfer>, base: int)
    requires Proper(s) && |ts| < USBBUFSIZE
    ensures var t := Called(adapter, s, ts, base);
            Wire(t) == Wire(s) + Emitted(ts, base, |ts|, s.lastData) + if HasRead(ts) then [t.lastData] else []
  {
    var e := Emitted(ts, base, |ts|, s.lastData);
    var s1 := MakeRoom(adapter, s, ts);
    assert Wire(s1) == Wire(s);
    assert Wire(Send(s1, ts, base)) == Wire(s) + e;
  }

  /** Sending the current levels once more, or nothing, is not noticed. */
  lemma {:induction false} PadUnnoticed(w: Watcher, bytes: seq<bv8>, d: bv8, pad: bool)
    requires InTune(WatchPins(w, bytes), d)
    ensures WatchPins(w, bytes + if pad then [d] else []) == WatchPins(w, bytes)
  {
    if pad {
      WatchPinsSnoc(w, bytes, d);
      RepeatUnnoticed(WatchPins(w, bytes), PinLevel(d));
    } else {
      assert bytes + [] == bytes;
    }
  }

  /** One call. */
  lemma {:induction false} CallTap(adapter: Adapter, w: Watcher, s: State, ts: seq<Transfer>, base: int)
    requires Proper(s) && |ts| < USBBUFSIZE && InTune(WatchPins(w, Wire(s)), s.lastData)
    ensures var t := Called(adapter, s, ts, base);
            && WatchPins(w, Wire(t)) == WatchPins(WatchPins(w, Wire(s)), AllPins(Writes(ts, base, |ts|)))
            && InTune(WatchPins(w, Wire(t)), t.lastData)
  {
    var e, d := Emitted(ts, base, |ts|, s.lastData), LastData(ts, base, |ts|, s.lastData);
    CalledWire(adapter, s, ts, base);
    BatchTap(WatchPins(w, Wire(s)), ts, base, |ts|, s.lastData);
    WatchPinsConcat(w, Wire(s), e);
    PadUnnoticed(w, Wire(s) + e, d, HasRead(ts));
  }

  ghost predicate Sized(batches: seq<seq<Transfer>>) {
    forall k :: 0 <= k < |batches| ==> |batches[k]| < USBBUFSIZE
  }

  /** The state after a run of calls. */
  ghost function Run(adapter: Adapter, s: State, batches: seq<seq<Transfer>>, base: int): (t: State)
    requires Proper(s) && Sized(batches)
    ensures Proper(t)
  {
    if batches == [] then s
    else
      var before := Run(adapter, s, batches[..|batches| - 1], base);
      CalledProper(adapter, before, batches[|batches| - 1], base);
      Called(adapter, before, batches[|batches| - 1], base)
  }

  ghost function AllWrites(batches: seq<seq<Transfer>>, base: int): seq<bv8> {
    if batches == [] then []
    else
      var ts := batches[|batches| - 1];
      AllWrites(batches[..|batches| - 1], base) + Writes(ts, base, |ts|)
  }

  lemma {:induction false} RunWatched(adapter: Adapter, w: Watcher, s: State, batches: seq<seq<Transfer>>, base: int)
    requires Proper(s) && Sized(batches) && InTune(WatchPins(w, Wire(s)), s.lastData)
    ensures var t := Run(adapter, s, batches, base);
            && WatchPins(w, Wire(t)) == WatchPins(WatchPins(w, Wire(s)), AllPins(AllWrites(batches, base)))
            && InTune(WatchPins(w, Wire(t)), t.lastData)
    decreases |batches|
  {
    if batches != [] {
      var front, ts := batches[..|batches| - 1], batches[|batches| - 1];
      RunWatched(adapter, w, s, front, base);
      CallTap(adapter, w, Run(adapter, s, front, base), ts, base);
      AllPinsConcat(AllWrites(front, base), Writes(ts, base, |ts|));
      WatchPinsConcat(WatchPins(w, Wire(s)), AllPins(AllWrites(front, base)), AllPins(Writes(ts, base, |ts|)));
    }
  }

  lemma {:induction false} PinsAsPort(w: Watcher, values: seq<bv8>)
    requires forall i :: 0 <= i < |values| ==> !High(values[i], PP_CTRL)
    ensures WatchPins(w, AllPins(values)) == WatchPort(w, values)
  {
    if values != [] {
      var front, v := values[..|values| - 1], values[|values| - 1];
      PinsAsPort(w, front);
      WatchPinsSnoc(w, AllPins(front), Pins(v));
      PinsCarryLevels(v);
    }
  }

  /** Over any run of calls from power-up, what has been sent and what still waits in the buffer
      drives the TAP controller through the same states, with the same TDI samples, as every data
      port write taken by itself, in order, as long as CTRL stays clear. */
  lemma {:induction false} CombiningPreservesTap(adapter: Adapter, w: Watcher, s: State, batches: seq<seq<Transfer>>,
                                                 base: int)
    requires Proper(s) && Sized(batches) && Wire(s) == [] && s.lastData == 0 && !w.tck
    ensures WatchPins(w, Wire(Run(adapter, s, batches, base))) == WatchPins(w, AllPins(AllWrites(batches, base)))
    ensures (forall i :: 0 <= i < |AllWrites(batches, base)| ==> !High(AllWrites(batches, base)[i], PP_CTRL)) ==>
              WatchPins(w, Wire(Run(adapter, s, batches, base))) == WatchPort(w, AllWrites(batches, base))
  {
    RunWatched(adapter, w, s, batches, base);
    if forall i :: 0 <= i < |AllWrites(batches, base)| ==> !High(AllWrites(batches, base)[i], PP_CTRL) {
      PinsAsPort(w, AllWrites(batches, base));
    }
  }

  // ---------------------------------------------------------------------
  // Which received byte answers which read
  // ---------------------------------------------------------------------

  /** The reply loop takes for read i the byte one past the one emitted for it. */
  ghost predicate Aligned(ts: seq<Transfer>, base: int, i: nat, w: bv8)
    requires i < |ts|
  {
    Stepped(ts, base, i + 1, w) == |Emitted(ts, base, i, Pins(w))| + 1
  }

  /** Both loops treat transfer j alike: it is a read or the last one, it repeats the last data
      port value, or it is a data port write that moves a pin. */
  ghost predicate Faithful(ts: seq<Transfer>, base: int, j: nat, w: bv8)
    requires j < |ts|
  {
    var t, last := ts[j], LastWrite(ts, base, j, w);
    IsRead(t) || j == |ts| - 1 || t.byte == last || (IsDataWrite(t, base) && Pins(t.byte) != Pins(last))
  }

  /** A byte is never emitted without being stepped over; the reverse fails for unfaithful transfers. */
  lemma {:induction false} EmitsAndSteps(ts: seq<Transfer>, base: int, j: nat, w: bv8)
    requires j < |ts|
    ensures Emits(ts, base, j, Pins(w)) ==> Steps(ts, base, j, w)
    ensures (Steps(ts, base, j, w) ==> Emits(ts, base, j, Pins(w))) <==> Faithful(ts, base, j, w)
  {
    LastDataIsPins(ts, base, j, w);
    Unfold(ts, base, j, Pins(w), w);
  }

  ghost predicate FaithfulBefore(ts: seq<Transfer>, base: int, n: nat, w: bv8)
    requires n <= |ts|
  {
    forall j :: 0 <= j < n ==> Faithful(ts, base, j, w)
  }

  lemma {:induction false} StepsCountEmitted(ts: seq<Transfer>, base: int, n: nat, w: bv8)
    requires n <= |ts|
    ensures Stepped(ts, base, n, w) >= |Emitted(ts, base, n, Pins(w))|
    ensures Stepped(ts, base, n, w) == |Emitted(ts, base, n, Pins(w))| <==> FaithfulBefore(ts, base, n, w)
  {
    if n > 0 {
      StepsCountEmitted(ts, base, n - 1, w);
      EmitsAndSteps(ts, base, n - 1, w);
    }
  }

  /** A status read gets the byte that belongs to it exactly when every earlier transfer of the
      batch is faithful. */
  lemma {:induction false} AlignedIffFaithful(ts: seq<Transfer>, base: int, i: nat, w: bv8)
    requires i < |ts| && IsStatusRead(ts[i], base)
    ensures Aligned(ts, base, i, w) <==> FaithfulBefore(ts, base, i, w)
  {
    StepsCountEmitted(ts, base, i, w);
  }

  /** An aligned read of a batch is answered from the sample the adapter takes right after the byte
      that carries the levels in force at the read: the wire holds that byte at position p, and the
      answer is the sample at p + 1. */
  lemma {:induction false} ReadsTheirSample(adapter: Adapter, s: State, ts: seq<Transfer>, base: int, i: nat)
    requires Proper(s) && |ts| < USBBUFSIZE
    requires i < |ts| && HasRead(ts) && IsStatusRead(ts[i], base) && FaithfulBefore(ts, base, i, s.lastWrite)
    ensures var t := Called(adapter, s, ts, base);
            var p := |Wire(s)| + |Emitted(ts, base, i, s.lastData)|;
            && p + 1 < |Wire(t)| && Wire(t)[p] == LastData(ts, base, i, s.lastData)
            && Answered(ts, base, i, s.lastWrite, t.received).port == ts[i].port
            && Answered(ts, base, i, s.lastWrite, t.received).cmd == ts[i].cmd
            && Tells(Answered(ts, base, i, s.lastWrite, t.received).byte, adapter(p + 1), LastWrite(ts, base, i, s.lastWrite))
  {
    StatusTells(adapter(|Wire(s)| + |Emitted(ts, base, i, s.lastData)| + 1), LastWrite(ts, base, i, s.lastWrite));
    EmittedAt(ts, base, i, s.lastData);
    AlignedIffFaithful(ts, base, i, s.lastWrite);
    WireAt(adapter, s, ts, base, |Emitted(ts, base, i, s.lastData)|);
  }

  /** The byte emitted for a read is the one in force. */
  lemma {:induction false} EmittedAt(ts: seq<Transfer>, base: int, i: nat, d: bv8)
    requires i < |ts| && IsStatusRead(ts[i], base)
    ensures var k := |Emitted(ts, base, i, d)|;
            k < |Emitted(ts, base, |ts|, d)| && Emitted(ts, base, |ts|, d)[k] == LastData(ts, base, i, d)
  {
    Unfold(ts, base, i, d, 0);
    EmittedGrows(ts, base, i + 1, |ts|, d);
  }

  lemma {:induction false} WireAt(adapter: Adapter, s: State, ts: seq<Transfer>, base: int, k: nat)
    requires Proper(s) && |ts| < USBBUFSIZE && HasRead(ts)
    requires k < |Emitted(ts, base, |ts|, s.lastData)|
    ensures var t := Called(adapter, s, ts, base);
            && |Wire(s)| + k + 1 < |Wire(t)| && Wire(t)[|Wire(s)| + k] == Emitted(ts, base, |ts|, s.lastData)[k]
            && t.received[k + 1] == adapter(|Wire(s)| + k + 1)
  {
    CalledWire(adapter, s, ts, base);
    ReceivedIs(adapter, s, ts, base, k + 1);
  }

  lemma {:induction false} EmittedGrows(ts: seq<Transfer>, base: int, n: nat, m: nat, d: bv8)
    requires n <= m <= |ts|
    ensures Emitted(ts, base, n, d) <= Emitted(ts, base, m, d)
    decreases m - n
  {
    if n < m {
      EmittedGrows(ts, base, n, m - 1, d);
    }
  }

  /** The k-th byte received in a reading call is the adapter's sample for that byte of the batch. */
  lemma {:induction false} ReceivedIs(adapter: Adapter, s: State, ts: seq<Transfer>, base: int, k: nat)
    requires Proper(s) && |ts| < USBBUFSIZE && HasRead(ts)
    requires k <= |Emitted(ts, base, |ts|, s.lastData)|
    ensures Called(adapter, s, ts, base).received[k] == adapter(|Wire(s)| + k)
  {}

  /** A batch of data port writes and status reads whose writes keep CTRL clear and the PROG and
      unmapped bits as they were is faithful throughout. */
  lemma {:induction false} SteadyBatchFaithful(ts: seq<Transfer>, base: int, w: bv8)
    requires !High(w, PP_CTRL)
    requires forall j :: 0 <= j < |ts| ==>
               || IsStatusRead(ts[j], base)
               || (IsDataWrite(ts[j], base) && !High(ts[j].byte, PP_CTRL) && ts[j].byte & 0xf0 == w & 0xf0)
    ensures FaithfulBefore(ts, base, |ts|, w)
  {
    forall j | 0 <= j < |ts|
      ensures Faithful(ts, base, j, w)
    {
      SteadyLastWrite(ts, base, j, w);
      if IsDataWrite(ts[j], base) {
        SamePinsSameValue(ts[j].byte, LastWrite(ts, base, j, w));
      }
    }
  }

  lemma {:induction false} SteadyLastWrite(ts: seq<Transfer>, base: int, n: nat, w: bv8)
    requires n <= |ts| && !High(w, PP_CTRL)
    requires forall j :: 0 <= j < n ==>
               || IsStatusRead(ts[j], base)
               || (IsDataWrite(ts[j], base) && !High(ts[j].byte, PP_CTRL) && ts[j].byte & 0xf0 == w & 0xf0)
    ensures var v := LastWrite(ts, base, n, w);
            !High(v, PP_CTRL) && v & 0xf0 == w & 0xf0
  {
    if n > 0 {
      SteadyLastWrite(ts, base, n - 1, w);
    }
  }

  lemma {:induction false} SamePinsSameValue(a: bv8, b: bv8)
    requires !High(a, PP_CTRL) && !High(b, PP_CTRL) && a & 0xf0 == b & 0xf0
    ensures Pins(a) == Pins(b) ==> a == b
  {}

  /** A write that only raises PROG moves no pin, so no byte is sent for it, yet the reply loop steps
      over one: the status read behind it takes a byte past the end of what was received. */
  lemma {:induction false} ProgWriteMisaligns(base: int)
    ensures var ts := [Transfer(base + PP_DATA, PP_WRITE, PP_PROG), Transfer(base + PP_STATUS, PP_READ, 0)];
            && !Aligned(ts, base, 1, 0)
            && Stepped(ts, base, 2, 0) == |Emitted(ts, base, 2, 0)| + 1
  {
    var ts := [Transfer(base + PP_DATA, PP_WRITE, PP_PROG), Transfer(base + PP_STATUS, PP_READ, 0)];
    assert LastWrite(ts, base, 0, 0) == 0 && LastWrite(ts, base, 1, 0) == PP_PROG;
    assert Pins(0) == 0 && Pins(PP_PROG) == 0;
    Unfold(ts, base, 0, 0, 0);
    Unfold(ts, base, 1, 0, 0);
    assert !Emits(ts, base, 0, 0) && Emits(ts, base, 1, 0);
    assert Emitted(ts, base, 0, 0) == [];
    assert Steps(ts, base, 0, 0) && Steps(ts, base, 1, 0);
    assert Stepped(ts, base, 1, 0) == 1 && Stepped(ts, base, 2, 0) == 2;
  }
}
