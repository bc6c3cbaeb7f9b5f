// The TAP controller of section 6.1.1 of IEEE Std 1149.1-2001, as watched by jtagmon.
module Tap {

  datatype TapState =
    | TestLogicReset | RunTestIdle
    | SelectDr | CaptureDr | ShiftDr | Exit1Dr | PauseDr | Exit2Dr | UpdateDr
    | SelectIr | CaptureIr | ShiftIr | Exit1Ir | PauseIr | Exit2Ir | UpdateIr

  /** The state after a rising edge of TCK. */
  function Next(s: TapState, tms: bool): TapState {
    match s
    case TestLogicReset => if tms then TestLogicReset else RunTestIdle
    case RunTestIdle => if tms then SelectDr else RunTestIdle
    case SelectDr => if tms then SelectIr else CaptureDr
    case CaptureDr => if tms then Exit1Dr else ShiftDr
    case ShiftDr => if tms then Exit1Dr else ShiftDr
    case Exit1Dr => if tms then UpdateDr else PauseDr
    case PauseDr => if tms then Exit2Dr else PauseDr
    case Exit2Dr => if tms then UpdateDr else ShiftDr
    case UpdateDr => if tms then SelectDr else RunTestIdle
    case SelectIr => if tms then TestLogicReset else CaptureIr
    case CaptureIr => if tms then Exit1Ir else ShiftIr
    case ShiftIr => if tms then Exit1Ir else ShiftIr
    case Exit1Ir => if tms then UpdateIr else PauseIr
    case PauseIr => if tms then Exit2Ir else PauseIr
    case Exit2Ir => if tms then UpdateIr else ShiftIr
    case UpdateIr => if tms then SelectDr else RunTestIdle
  }

  function Hold(s: TapState, tms: bool, n: nat): TapState {
    if n == 0 then s else Next(Hold(s, tms, n - 1), tms)
  }

  /** Holding TMS high for five clocks resets the controller whatever its state, and four clocks are not enough
      from everywhere. */
  lemma {:induction false} FiveOnesReset(s: TapState)
    ensures Hold(s, true, 5) == TestLogicReset
    ensures Hold(ShiftDr, true, 4) != TestLogicReset
  {
    assert Hold(s, true, 1) == Next(s, true) && Hold(s, true, 2) == Next(Hold(s, true, 1), true);
    assert Hold(s, true, 3) == Next(Hold(s, true, 2), true) && Hold(s, true, 4) == Next(Hold(s, true, 3), true);
    assert Hold(ShiftDr, true, 1) == Exit1Dr && Hold(ShiftDr, true, 2) == UpdateDr;
    assert Hold(ShiftDr, true, 3) == SelectDr && Hold(ShiftDr, true, 4) == SelectIr;
  }

  /** The state of the instruction column that lies beside a state of the data column. */
  function Beside(s: TapState): TapState {
    match s
    case SelectDr => SelectIr
    case CaptureDr => CaptureIr
    case ShiftDr => ShiftIr
    case Exit1Dr => Exit1Ir
    case PauseDr => PauseIr
    case Exit2Dr => Exit2Ir
    case UpdateDr => UpdateIr
    case other => other
  }

  /** The two columns move alike: only the select states, which open them, differ when TMS is high, and both
      update states leave the columns the same way. */
  lemma {:induction false} ColumnsMoveAlike(s: TapState, tms: bool)
    requires Beside(s) != s
    ensures if s == UpdateDr then Next(Beside(s), tms) == Next(s, tms)
            else Next(Beside(s), tms) == Beside(Next(s, tms)) <==> !(s == SelectDr && tms)
  {}

  /** The levels of TMS that lead the controller through the data column once: from Run-Test/Idle to Shift-DR, n bits
      are shifted, the last one while leaving, and back. */
  function ScanPath(n: nat): seq<bool>
    requires n > 0
  {
    [true, false, false] + seq(n - 1, i => false) + [true, true, false]
  }

  function Walk(s: TapState, levels: seq<bool>): TapState {
    if levels == [] then s else Next(Walk(s, levels[..|levels| - 1]), levels[|levels| - 1])
  }

  lemma {:induction false} WalkSnoc(s: TapState, levels: seq<bool>, tms: bool)
    ensures Walk(s, levels + [tms]) == Next(Walk(s, levels), tms)
  {
    assert (levels + [tms])[..|levels|] == levels;
  }

  lemma {:induction false} WalkLows(s: TapState, levels: seq<bool>, n: nat)
    requires Walk(s, levels) == ShiftDr
    ensures Walk(s, levels + seq(n, i => false)) == ShiftDr
  {
    if n == 0 {
      assert levels + seq(0, i => false) == levels;
    } else {
      WalkLows(s, levels, n - 1);
      assert levels + seq(n, i => false) == (levels + seq(n - 1, i => false)) + [false];
      WalkSnoc(s, levels + seq(n - 1, i => false), false);
    }
  }

  /** Such a path starts and ends in Run-Test/Idle, for any number of bits. */
  lemma {:induction false} ScanReturns(n: nat)
    requires n > 0
    ensures Walk(RunTestIdle, ScanPath(n)) == RunTestIdle
    ensures Walk(RunTestIdle, ScanPath(n)[..n + 2]) == ShiftDr && Walk(RunTestIdle, ScanPath(n)[..n + 3]) == Exit1Dr
  {
    var first, lows := [true, false, false], seq(n - 1, i => false);
    assert first == [] + [true] + [false] + [false];
    WalkSnoc(RunTestIdle, [], true);
    WalkSnoc(RunTestIdle, [] + [true], false);
    WalkSnoc(RunTestIdle, [] + [true] + [false], false);
    WalkLows(RunTestIdle, first, n - 1);
    var shifted := first + lows;
    WalkSnoc(RunTestIdle, shifted, true);
    WalkSnoc(RunTestIdle, shifted + [true], true);
    WalkSnoc(RunTestIdle, shifted + [true] + [true], false);
    assert ScanPath(n) == shifted + [true] + [true] + [false];
    assert ScanPath(n)[..n + 2] == shifted && ScanPath(n)[..n + 3] == shifted + [true];
  }

  /** The levels of the three lines the controller sees. */
  datatype Level = Level(tck: bool, tms: bool, tdi: bool)

  /** What a watcher of the lines knows: the TCK level, the state, and the state entered and TDI
      value sampled at every rising edge so far. */
  datatype Watcher = Watcher(tck: bool, state: TapState, history: seq<(TapState, bool)>)

  function Watch(w: Watcher, l: Level): Watcher {
    if !w.tck && l.tck then
      var state := Next(w.state, l.tms);
      Watcher(true, state, w.history + [(state, l.tdi)])
    else w.(tck := l.tck)
  }

  /** Repeating the current level is not noticed. */
  lemma {:induction false} RepeatUnnoticed(w: Watcher, l: Level)
    requires w.tck == l.tck
    ensures Watch(w, l) == w
  {}

  // ---------------------------------------------------------------------
  // The monitor itself
  // ---------------------------------------------------------------------

  datatype Note = Moved(from: TapState, to: TapState) | Bit(tdi: bool) | NewLine

  class Monitor {
    var lastTck: bool
    var tdiWritten: bool
    var state: TapState
    var notes: seq<Note>
    ghost var seen: Watcher

    ghost predicate Valid()
      reads this
    {
      && seen.tck == lastTck && seen.state == state
      && (tdiWritten ==> notes != [] && notes[|notes| - 1].Bit?)
    }

    constructor ()
      ensures Valid() && seen == Watcher(true, TestLogicReset, []) && notes == []
    {
      lastTck, tdiWritten, state := true, false, TestLogicReset;
      notes := [];
      seen := Watcher(true, TestLogicReset, []);
    }

    method Step(tms: bool)
      modifies this`state
      ensures state == Next(old(state), tms)
    {
      match state {
        case TestLogicReset => if tms { state := TestLogicReset; } else { state := RunTestIdle; }
        case RunTestIdle => if tms { state := SelectDr; } else { state := RunTestIdle; }
        case SelectDr => if tms { state := SelectIr; } else { state := CaptureDr; }
        case CaptureDr => if tms { state := Exit1Dr; } else { state := ShiftDr; }
        case ShiftDr => if tms { state := Exit1Dr; } else { state := ShiftDr; }
        case Exit1Dr => if tms { state := UpdateDr; } else { state := PauseDr; }
        case PauseDr => if tms { state := Exit2Dr; } else { state := PauseDr; }
        case Exit2Dr => if tms { state := UpdateDr; } else { state := ShiftDr; }
        case UpdateDr => if tms { state := SelectDr; } else { state := RunTestIdle; }
        case SelectIr => if tms { state := TestLogicReset; } else { state := CaptureIr; }
        case CaptureIr => if tms { state := Exit1Ir; } else { state := ShiftIr; }
        case ShiftIr => if tms { state := Exit1Ir; } else { state := ShiftIr; }
        case Exit1Ir => if tms { state := UpdateIr; } else { state := PauseIr; }
        case PauseIr => if tms { state := Exit2Ir; } else { state := PauseIr; }
        case Exit2Ir => if tms { state := UpdateIr; } else { state := ShiftIr; }
        case UpdateIr => if tms { state := SelectDr; } else { state := RunTestIdle; }
      }
    }

    /** One level on the lines: a state change is noted as such, any other rising edge by its TDI. */
    method Clock(tck: bool, tms: bool, tdi: bool)
      requires Valid()
      modifies this
      ensures Valid()
      ensures seen == Watch(old(seen), Level(tck, tms, tdi))
      ensures notes == old(notes) +
                if old(lastTck) || !tck then []
                else if state == old(state) then [Bit(tdi)]
                else if old(tdiWritten) then [NewLine, Moved(old(state), state)]
                else [Moved(old(state), state)]
    {
      var lastState := state;
      if !lastTck && tck {
        Step(tms);
        if lastState != state {
          if tdiWritten { notes := notes + [NewLine]; }
          notes := notes + [Moved(lastState, state)];
          tdiWritten := false;
        } else {
          notes := notes + [Bit(tdi)];
          tdiWritten := true;
        }
      }
      seen := Watch(seen, Level(tck, tms, tdi));
      lastTck := tck;
    }
  }
}
