// Device reservations and the programming lock of leap-fpga-ctrl: one state file per device, one
// lock file for all of them, many users and processes.
module Reservation {
  import opened Common
  import opened CText
  import opened ResFile

  datatype Status = Free | Reserved | Program | Active | Inactive | Reset

  function Code(s: Status): int {
    match s
    case Free => 0
    case Reserved => 1
    case Program => 2
    case Active => 3
    case Inactive => 4
    case Reset => 5
  }

  const STATE_LAST := 6

  function FromCode(c: int): (s: Status)
    requires 0 <= c < STATE_LAST
    ensures Code(s) == c
  {
    if c == 0 then Free else if c == 1 then Reserved else if c == 2 then Program
    else if c == 3 then Active else if c == 4 then Inactive else Reset
  }

  /** Owner and state of a device, from its file; an empty or odd file means a free device. */
  function Current(text: string): (int, Status) {
    var f := Scan(text);
    if f.count < 2 || f.state < 0 || f.state >= STATE_LAST then (0, Free) else (f.owner, FromCode(f.state))
  }

  function Signature(text: string): string { Scan(text).signature }

  // ---------------------------------------------------------------------
  // Changing a reservation
  // ---------------------------------------------------------------------

  /** Granted: the file was rewritten. Refused: try another device. Died: an error exit. */
  datatype Verdict = Granted | Refused | Died

  datatype Change = Change(verdict: Verdict, text: string, unlink: bool)

  /** RESET is a request; the state it leads to is FREE. */
  function Goal(asked: Status): Status { if asked == Reset then Free else asked }

  function NewSignature(text: string, goal: Status, given: Option<string>): string {
    if goal == Program then
      if given.None? then "" else if |given.value| <= MAX_SIGNATURE then given.value else given.value[..MAX_SIGNATURE]
    else if goal == Reset then ""
    else Signature(text)
  }

  /** May the user make the change, and is the programming lock file removed? */
  function Decide(owner: int, was: Status, uid: int, force: bool, asked: Status, given: Option<string>): (Verdict, bool) {
    if asked == Program && given.Some? && was != Program then (Died, false)
    else
      var goal := Goal(asked);
      if was != Free && uid == owner && goal == Reserved then (Refused, false)
      else if was != Free && uid != owner && goal == Reserved && !force then (Refused, false)
      else if was != Free && uid != owner && goal == Free && !force then (Died, false)
      else if was != Free && uid != owner && goal != Free && goal != Reserved then
        (Died, was != Program && goal == Program)
      else if was == Free && goal != Free && goal != Reserved then (Died, false)
      else (Granted, was == Program && goal != Program)
  }

  /** What change_current_reservation does to the file of its device, and whether it removes the
      programming lock file. */
  function Changed(text: string, uid: int, force: bool, asked: Status, given: Option<string>): Change {
    var (owner, was) := Current(text);
    var (verdict, unlink) := Decide(owner, was, uid, force, asked, given);
    var rewritten := Print(uid, Code(Goal(asked)), NewSignature(text, asked, given));
    Change(verdict, if verdict == Granted then rewritten else text, unlink)
  }

  lemma {:induction false} CurrentOfPrint(uid: int, s: Status, signature: string)
    ensures Current(Print(uid, Code(s), signature)) == (uid, s)
    ensures Signature(Print(uid, Code(s), signature)) == ScanWord(" " + signature + "\n")
  {
    ScanOfPrint(uid, Code(s), signature);
  }

  /** What a granted change leaves: the caller as owner, and the state asked for. */
  lemma {:induction false} GrantedState(text: string, uid: int, force: bool, asked: Status, given: Option<string>)
    requires Changed(text, uid, force, asked, given).verdict == Granted
    ensures Current(Changed(text, uid, force, asked, given).text) == (uid, Goal(asked))
  {
    CurrentOfPrint(uid, Goal(asked), NewSignature(text, asked, given));
  }

  /** Exactly when a change is granted. */
  lemma {:induction false} GrantedIff(text: string, uid: int, force: bool, asked: Status, given: Option<string>)
    ensures var (owner, was) := Current(text);
            Changed(text, uid, force, asked, given).verdict == Granted
            <==> match asked
                 case Reserved => was == Free || (uid != owner && force)
                 case Free => was == Free || uid == owner || force
                 case Reset => was == Free || uid == owner || force
                 case Program => was != Free && uid == owner && (given.None? || was == Program)
                 case _ => was != Free && uid == owner
  {}

  /** A file, or no file, in which scanning does not find two numbers, or finds a state that there is not. */
  predicate Odd(text: string) { Scan(text).count < 2 || Scan(text).state < 0 || Scan(text).state > 5 }

  /** A device with such a file can be reserved by anybody, without --force, and its file then names the user and
      the reserved state; nobody can program, activate or deactivate it. */
  lemma {:induction false} OddIsFree(text: string, uid: int)
    requires Odd(text)
    ensures var c := Changed(text, uid, false, Reserved, None);
            && c.verdict == Granted && !c.unlink
            && Scan(c.text).count >= 2 && Scan(c.text).owner == uid && Scan(c.text).state == 1
    ensures forall asked, given, force :: asked in {Program, Active, Inactive} ==>
              Changed(text, uid, force, asked, given) == Change(Died, text, false)
  {
    ScanOfPrint(uid, 1, NewSignature(text, Reserved, None));
  }

  /** A file with two numbers, the second one a state, means what it says: only its owner can go on to use the
      device, and only when it is not free. */
  lemma {:induction false} KnownIsOwned(text: string, uid: int, asked: Status)
    requires !Odd(text) && asked in {Active, Inactive}
    ensures Changed(text, uid, false, asked, None).verdict == Granted <==> Scan(text).state != 0 && uid == Scan(text).owner
    ensures Changed(text, uid, false, Reserved, None).verdict == Granted <==> Scan(text).state == 0
  {}

  /** Such files are those without digits, with one number only, or with a number that is no state. */
  lemma {:induction false} FewNumbersAreOdd(n: int, state: int, rest: string)
    requires Digitless(rest)
    ensures Odd(rest) && Odd(PrintInt(n) + rest)
    ensures Odd(Print(n, state, rest)) <==> state < 0 || state > 5
  {
    ScanOfFew(n, rest);
    ScanOfPrint(n, state, rest);
  }

  lemma {:induction false} EmptyIsOdd()
    ensures Odd("")
  {
    FewNumbersAreOdd(0, 0, "");
  }

  /** Without --force nobody but the owner changes the file of a device that is not free. */
  lemma {:induction false} OthersChangeNothing(text: string, uid: int, asked: Status, given: Option<string>)
    requires Current(text).1 != Free && uid != Current(text).0
    ensures Changed(text, uid, false, asked, given).text == text
    ensures Changed(text, uid, false, asked, given).verdict != Granted
  {}

  /** The signature survives every change but the ones to PROGRAM and RESET; a new one survives
      exactly when it is a single word that fits. */
  lemma {:induction false} SignatureKept(text: string, uid: int, force: bool, asked: Status, given: Option<string>)
    ensures var c := Changed(text, uid, force, asked, given);
            && (asked != Program && asked != Reset ==> Signature(c.text) == Signature(text))
            && (c.verdict != Granted ==> Signature(c.text) == Signature(text))
            && (c.verdict == Granted && asked == Program && given.Some? && |given.value| <= MAX_SIGNATURE ==>
                  (Signature(c.text) == given.value <==> Plain(given.value)))
            && (c.verdict == Granted && (asked == Reset || (asked == Program && given.None?)) ==> Signature(c.text) == "")
  {
    var c := Changed(text, uid, force, asked, given);
    if c.verdict == Granted {
      var signature := NewSignature(text, asked, given);
      CurrentOfPrint(uid, Goal(asked), signature);
      ScanWordIff(signature);
    }
  }

  // ---------------------------------------------------------------------
  // The processes
  // ---------------------------------------------------------------------

  datatype Request = AskReserve | AskProgram | AskActivate | AskDeactivate | AskDrop | AskReset | AskSign(signature: string)

  /** Where a process stands. */
  datatype Pc =
    | Idle
    | Seeking(uid: int, force: bool)
    | Created(uid: int, force: bool)
    | Looking(uid: int, force: bool)
    | Changing(uid: int, force: bool, asked: Status, given: Option<string>)
    | Unlinking

  /** A process, and the device it works on. */
  datatype Process = Process(dev: nat, pc: Pc)

  /** The programming lock file: the process that created it, and its contents. */
  datatype Lock = Lock(maker: nat, text: string)

  datatype World = World(files: map<nat, string>, lock: Option<Lock>, procs: map<nat, Process>)

  function Text(w: World, d: nat): string { if d in w.files then w.files[d] else "" }

  function ProcOf(w: World, p: nat): Process { if p in w.procs then w.procs[p] else Process(0, Idle) }

  function PcOf(w: World, p: nat): Pc { ProcOf(w, p).pc }

  function DevOf(w: World, p: nat): nat { ProcOf(w, p).dev }

  function StatusOf(w: World, d: nat): Status { Current(Text(w, d)).1 }

  function OwnerOf(w: World, d: nat): int { Current(Text(w, d)).0 }

  /** The lock file names the device. */
  predicate Names(text: string, d: nat) {
    var n := ScanInt(text);
    n.Some? && n.value.0 == d
  }

  predicate LockNames(w: World, d: nat) { w.lock.Some? && Names(w.lock.value.text, d) }

  function LockText(d: nat): string { PrintInt(d) + "\n" }

  lemma {:induction false} LockTextNames(d: nat)
    ensures Names(LockText(d), d)
  {
    ScanOfPrintInt(d, "\n");
  }

  lemma {:induction false} EmptyNamesNone(d: nat)
    ensures !Names("", d)
  {
    assert SkipSpace("") == "";
  }

  function Begin(uid: int, force: bool, r: Request): Pc {
    match r
    case AskReserve => Changing(uid, force, Reserved, None)
    case AskProgram => Seeking(uid, force)
    case AskActivate => Changing(uid, force, Active, None)
    case AskDeactivate => Changing(uid, force, Inactive, None)
    case AskDrop => Changing(uid, force, Free, None)
    case AskReset => Changing(uid, force, Reset, None)
    case AskSign(signature) => Changing(uid, force, Program, Some(signature))
  }

  /** Any number of processes, on any devices. */
  datatype Event = Start(pid: nat, dev: nat, uid: int, force: bool, request: Request) | Step(pid: nat) | Kill(pid: nat)

  function Goto(w: World, p: nat, pc: Pc): World { w.(procs := w.procs[p := Process(DevOf(w, p), pc)]) }

  /** Another process still holds the file lock of the device: it has changed the reservation, and goes on
      to remove the programming lock before it lets go. */
  predicate Blocked(w: World, p: nat) {
    exists q :: q in w.procs && q != p && w.procs[q].dev == DevOf(w, p) && w.procs[q].pc.Unlinking?
  }

  /** One atomic step of process p. */
  function Stepped(w: World, p: nat): World {
    var d := DevOf(w, p);
    match PcOf(w, p)
    case Idle => w
    case Seeking(uid, force) =>
      if w.lock.None? then Goto(w.(lock := Some(Lock(p, ""))), p, Created(uid, force))
      else Goto(w, p, Looking(uid, force))
    case Created(uid, force) =>
      var lock := if w.lock.Some? && w.lock.value.maker == p then Some(Lock(p, LockText(d))) else w.lock;
      Goto(w.(lock := lock), p, Changing(uid, force, Program, None))
    case Looking(uid, force) =>
      if LockNames(w, d) || force then Goto(w, p, Changing(uid, force, Program, None))
      else Goto(w, p, Seeking(uid, force))
    case Changing(uid, force, asked, given) =>
      if Blocked(w, p) then w
      else
        var c := Changed(Text(w, d), uid, force, asked, given);
        Goto(w.(files := w.files[d := c.text]), p, if c.unlink then Unlinking else Idle)
    case Unlinking => Goto(w.(lock := None), p, Idle)
  }

  /** An idle process starts on a device, moves on, or is killed on the spot. */
  function Next(w: World, e: Event): World {
    match e
    case Start(p, d, uid, force, request) =>
      if PcOf(w, p) == Idle then w.(procs := w.procs[p := Process(d, Begin(uid, force, request))]) else w
    case Step(p) => Stepped(w, p)
    case Kill(p) => Goto(w, p, Idle)
  }

  function Run(w: World, es: seq<Event>): World {
    if es == [] then w else Next(Run(w, es[..|es| - 1]), es[|es| - 1])
  }

  lemma {:induction false} RunSnoc(w: World, es: seq<Event>, e: Event)
    ensures Run(w, es + [e]) == Next(Run(w, es), e)
  {
    assert (es + [e])[..|es|] == es;
  }

  ghost predicate Unforced(es: seq<Event>) {
    forall k :: 0 <= k < |es| ==> !(es[k].Start? && es[k].force)
  }

  /** A quiet machine: nothing runs, no lock file, nothing being programmed. */
  ghost predicate Quiet(w: World) {
    w.lock.None? && (forall p :: PcOf(w, p) == Idle) && forall d :: StatusOf(w, d) != Program
  }

  // ---------------------------------------------------------------------
  // At most one device is being programmed
  // ---------------------------------------------------------------------

  /** The process has found or made the lock, and is about to enter PROGRAM. */
  predicate Waiting(pc: Pc) { pc.Changing? && pc.asked == Program && pc.given.None? }

  predicate Forced(pc: Pc) { (pc.Seeking? || pc.Created? || pc.Looking? || pc.Changing?) && pc.force }

  ghost predicate SafeProc(w: World, p: nat) {
    var pc, d := PcOf(w, p), DevOf(w, p);
    && (Waiting(pc) ==> LockNames(w, d))
    && (pc.Unlinking? ==> LockNames(w, d) && StatusOf(w, d) != Program)
    && (pc.Created? ==> w.lock == Some(Lock(p, "")))
    && !Forced(pc)
  }

  ghost predicate SafeDev(w: World, d: nat) { StatusOf(w, d) == Program ==> LockNames(w, d) }

  /** At most one process per device removes the lock. */
  ghost predicate Alone(w: World, p: nat, q: nat) {
    PcOf(w, p).Unlinking? && PcOf(w, q).Unlinking? && DevOf(w, p) == DevOf(w, q) ==> p == q
  }

  ghost predicate Safe(w: World) {
    && (forall p :: SafeProc(w, p))
    && (forall d :: SafeDev(w, d))
    && (forall p, q :: Alone(w, p, q))
  }

  /** The step removes the lock while another process on the same device relies on it. */
  ghost predicate Races(w: World, e: Event) {
    e.Step? && PcOf(w, e.pid).Unlinking? && exists q :: Loses(w, e.pid, q)
  }

  ghost predicate Loses(w: World, p: nat, q: nat) {
    q != p && DevOf(w, q) == DevOf(w, p) && Waiting(PcOf(w, q))
  }

  /** The facts about a change that the lock depends on. */
  lemma {:induction false} ChangeAndLock(text: string, uid: int, asked: Status, given: Option<string>)
    ensures var c := Changed(text, uid, false, asked, given);
            var was, goal := Current(text).1, Current(c.text).1;
            && (c.unlink ==> goal != Program && (was == Program || (asked == Program && given.None?)))
            && (goal == Program ==> was == Program || (asked == Program && given.None?))
            && (was == Program && goal != Program ==> c.unlink)
  {
    var c := Changed(text, uid, false, asked, given);
    if c.verdict == Granted {
      GrantedState(text, uid, false, asked, given);
    }
  }

  /** A step of p that leaves the lock and the files alone. */
  lemma {:induction false} SafeMove(w: World, w': World, p: nat)
    requires Safe(w) && w'.lock == w.lock && w'.files == w.files
    requires forall q :: q != p ==> ProcOf(w', q) == ProcOf(w, q)
    requires SafeProc(w', p) && !PcOf(w', p).Unlinking?
    ensures Safe(w')
  {
    forall q ensures SafeProc(w', q) { assert SafeProc(w, q); }
    forall d ensures SafeDev(w', d) { assert SafeDev(w, d); }
    forall q, r ensures Alone(w', q, r) { assert Alone(w, q, r); }
  }

  lemma {:induction false} SafeSeeking(w: World, p: nat)
    requires Safe(w) && PcOf(w, p).Seeking?
    ensures Safe(Stepped(w, p))
  {
    var w' := Stepped(w, p);
    assert SafeProc(w, p);
    if w.lock.Some? {
      SafeMove(w, w', p);
    } else {
      forall q ensures SafeProc(w', q) { assert SafeProc(w, q); }
      forall d ensures SafeDev(w', d) { assert SafeDev(w, d); }
      forall q, r ensures Alone(w', q, r) { assert Alone(w, q, r); }
    }
  }

  lemma {:induction false} SafeCreated(w: World, p: nat)
    requires Safe(w) && PcOf(w, p).Created?
    ensures Safe(Stepped(w, p))
  {
    var w' := Stepped(w, p);
    assert SafeProc(w, p);
    LockTextNames(DevOf(w, p));
    forall q ensures SafeProc(w', q) {
      assert SafeProc(w, q);
      EmptyNamesNone(DevOf(w, q));
    }
    forall d ensures SafeDev(w', d) {
      assert SafeDev(w, d);
      EmptyNamesNone(d);
    }
    forall q, r ensures Alone(w', q, r) { assert Alone(w, q, r); }
  }

  lemma {:induction false} SafeLooking(w: World, p: nat)
    requires Safe(w) && PcOf(w, p).Looking?
    ensures Safe(Stepped(w, p))
  {
    assert SafeProc(w, p);
    SafeMove(w, Stepped(w, p), p);
  }

  /** The step that changes the file of a device, when it is not blocked. */
  lemma {:induction false} SafeChanging(w: World, p: nat)
    requires Safe(w) && PcOf(w, p).Changing? && !Blocked(w, p)
    ensures Safe(Stepped(w, p))
  {
    var w', pc, d := Stepped(w, p), PcOf(w, p), DevOf(w, p);
    assert SafeProc(w, p) && SafeDev(w, d);
    ChangeAndLock(Text(w, d), pc.uid, pc.asked, pc.given);
    assert Text(w', d) == Changed(Text(w, d), pc.uid, false, pc.asked, pc.given).text;
    forall q ensures SafeProc(w', q) {
      assert SafeProc(w, q);
      if q != p && PcOf(w, q).Unlinking? { assert DevOf(w, q) != d; }
    }
    forall e ensures SafeDev(w', e) { assert SafeDev(w, e); }
    forall q, r ensures Alone(w', q, r) {
      assert Alone(w, q, r);
      if q != p && PcOf(w, q).Unlinking? { assert DevOf(w, q) != d; }
      if r != p && PcOf(w, r).Unlinking? { assert DevOf(w, r) != d; }
    }
  }

  lemma {:induction false} SafeUnlinking(w: World, p: nat)
    requires Safe(w) && PcOf(w, p).Unlinking? && !Races(w, Step(p))
    ensures Safe(Stepped(w, p))
  {
    var w', d := Stepped(w, p), DevOf(w, p);
    assert SafeProc(w, p);
    forall q ensures SafeProc(w', q) {
      assert SafeProc(w, q) && Alone(w, p, q) && !Loses(w, p, q);
      EmptyNamesNone(d);
    }
    forall e ensures SafeDev(w', e) { assert SafeDev(w, e); }
    forall q, r ensures Alone(w', q, r) { assert Alone(w, q, r); }
  }

  lemma {:induction false} SafeNext(w: World, e: Event)
    requires Safe(w) && !(e.Start? && e.force) && !Races(w, e)
    ensures Safe(Next(w, e))
  {
    match e
    case Start(p, d, uid, force, request) =>
      if PcOf(w, p) == Idle { SafeMove(w, Next(w, e), p); }
    case Kill(p) => SafeMove(w, Next(w, e), p);
    case Step(p) => SafeStep(w, p);
  }

  lemma {:induction false} SafeStep(w: World, p: nat)
    requires Safe(w) && !Races(w, Step(p))
    ensures Safe(Stepped(w, p))
  {
    match PcOf(w, p)
    case Idle =>
    case Seeking(_, _) => SafeSeeking(w, p);
    case Created(_, _) => SafeCreated(w, p);
    case Looking(_, _) => SafeLooking(w, p);
    case Changing(_, _, _, _) => if !Blocked(w, p) { SafeChanging(w, p); }
    case Unlinking => SafeUnlinking(w, p);
  }

  /** In no step of the run does a process lose the lock it relies on. */
  ghost predicate RaceFree(w: World, es: seq<Event>) {
    forall k :: 0 <= k < |es| ==> !Races(Run(w, es[..k]), es[k])
  }

  lemma {:induction false} RaceFreeInit(w: World, es: seq<Event>)
    requires es != [] && RaceFree(w, es)
    ensures RaceFree(w, es[..|es| - 1]) && !Races(Run(w, es[..|es| - 1]), es[|es| - 1])
  {
    var front := es[..|es| - 1];
    forall k | 0 <= k < |front| ensures !Races(Run(w, front[..k]), front[k]) {
      assert front[..k] == es[..k];
    }
  }

  lemma {:induction false} SafeRun(w: World, es: seq<Event>)
    requires Safe(w) && Unforced(es) && RaceFree(w, es)
    ensures Safe(Run(w, es))
  {
    if es != [] {
      RaceFreeInit(w, es);
      SafeRun(w, es[..|es| - 1]);
      SafeNext(Run(w, es[..|es| - 1]), es[|es| - 1]);
    }
  }

  lemma {:induction false} QuietIsSafe(w: World)
    requires Quiet(w)
    ensures Safe(w)
  {
    forall p ensures SafeProc(w, p) { assert PcOf(w, p) == Idle; }
    forall d ensures SafeDev(w, d) { assert StatusOf(w, d) != Program; }
    forall p, q ensures Alone(w, p, q) { assert PcOf(w, p) == Idle; }
  }

  /** In every interleaving of any number of processes, killed wherever they may be, without --force and
      without a race: a device in PROGRAM has the lock file, and no other device is in PROGRAM or has a
      process about to enter it. */
  lemma {:induction false} ProgrammingExclusive(w: World, es: seq<Event>, d: nat)
    requires Quiet(w) && Unforced(es) && RaceFree(w, es)
    requires StatusOf(Run(w, es), d) == Program
    ensures LockNames(Run(w, es), d)
    ensures forall e :: StatusOf(Run(w, es), e) == Program ==> e == d
    ensures forall p :: Waiting(PcOf(Run(w, es), p)) ==> DevOf(Run(w, es), p) == d
  {
    QuietIsSafe(w);
    SafeRun(w, es);
    var now := Run(w, es);
    assert SafeDev(now, d);
    forall e | StatusOf(now, e) == Program ensures e == d { assert SafeDev(now, e); }
    forall p | Waiting(PcOf(now, p)) ensures DevOf(now, p) == d { assert SafeProc(now, p); }
  }

  /** A process asks for PROGRAM, and takes two steps. */
  function Ask(p: nat, d: nat, uid: int): seq<Event> { [Start(p, d, uid, false, AskProgram), Step(p), Step(p)] }

  lemma {:induction false} RunThree(w: World, a: Event, b: Event, c: Event)
    ensures Run(w, [a, b, c]) == Next(Next(Next(w, a), b), c)
  {
    assert [a, b, c] == [a, b] + [c] && [a, b] == [a] + [b] && [a] == [] + [a];
    RunSnoc(w, [], a);
    RunSnoc(w, [a], b);
    RunSnoc(w, [a, b], c);
  }

  lemma {:induction false} RunConcat(w: World, a: seq<Event>, b: seq<Event>)
    ensures Run(w, a + b) == Run(Run(w, a), b)
    decreases |b|
  {
    if b == [] {
      assert a + b == a;
    } else {
      var n := |b| - 1;
      RunConcat(w, a, b[..n]);
      assert a + b == (a + b[..n]) + [b[n]];
      RunSnoc(w, a + b[..n], b[n]);
    }
  }

  function Entering(p: nat, d: nat, uid: int, procs: map<nat, Process>): map<nat, Process> {
    procs[p := Process(d, Changing(uid, false, Program, None))]
  }

  /** Without a lock file the process makes one and names its device in it. */
  lemma {:induction false} AskTakesLock(w: World, p: nat, d: nat, uid: int)
    requires w.lock.None? && PcOf(w, p) == Idle
    ensures Run(w, Ask(p, d, uid)) == World(w.files, Some(Lock(p, LockText(d))), Entering(p, d, uid, w.procs))
  {
    RunThree(w, Start(p, d, uid, false, AskProgram), Step(p), Step(p));
    assert w.procs[p := Process(d, Seeking(uid, false))][p := Process(d, Created(uid, false))]
                  [p := Process(d, Changing(uid, false, Program, None))] == Entering(p, d, uid, w.procs);
  }

  /** With one that names its device it goes on as if it had made it. */
  lemma {:induction false} AskFindsLock(w: World, p: nat, d: nat, uid: int)
    requires LockNames(w, d) && PcOf(w, p) == Idle
    ensures Run(w, Ask(p, d, uid)) == w.(procs := Entering(p, d, uid, w.procs))
  {
    RunThree(w, Start(p, d, uid, false, AskProgram), Step(p), Step(p));
    assert w.procs[p := Process(d, Seeking(uid, false))][p := Process(d, Looking(uid, false))]
                  [p := Process(d, Changing(uid, false, Program, None))] == Entering(p, d, uid, w.procs);
  }

  ghost predicate NoneUnlinks(w: World) { forall q :: PcOf(w, q) != Unlinking }

  lemma {:induction false} NobodyBlocks(w: World, p: nat)
    requires NoneUnlinks(w)
    ensures !Blocked(w, p)
  {
    forall q | q in w.procs ensures w.procs[q].pc != Unlinking { assert PcOf(w, q) != Unlinking; }
  }

  // ---------------------------------------------------------------------
  // The lock that nobody gives back
  // ---------------------------------------------------------------------

  /** A process that has, or thinks it has, the lock in hand. */
  predicate Holding(pc: Pc) { pc.Created? || pc.Unlinking? || Waiting(pc) }

  /** The step asks for PROGRAM on a free device: it is refused, and the lock stays. */
  ghost predicate LeaksAt(w: World, e: Event) {
    e.Step? && Waiting(PcOf(w, e.pid)) && !Blocked(w, e.pid) && StatusOf(w, DevOf(w, e.pid)) == Free && w.lock.Some?
  }

  ghost predicate RemovesAt(w: World, e: Event) { e.Step? && PcOf(w, e.pid).Unlinking? }

  /** In the run some step asked for PROGRAM on a free device, and no step has removed the lock since. */
  ghost predicate Leaked(w: World, es: seq<Event>) {
    if es == [] then false
    else
      var before, e := Run(w, es[..|es| - 1]), es[|es| - 1];
      LeaksAt(before, e) || (Leaked(w, es[..|es| - 1]) && !RemovesAt(before, e))
  }

  ghost predicate KillFree(es: seq<Event>) { forall k :: 0 <= k < |es| ==> !es[k].Kill? }

  /** Every lock file was leaked, or belongs to a device in PROGRAM, or some process has it in hand. */
  ghost predicate Explained(w: World, leaked: bool) {
    && (leaked ==> w.lock.Some?)
    && (w.lock.Some? ==> leaked || (exists d :: StatusOf(w, d) == Program) || exists p :: Holding(PcOf(w, p)))
  }

  /** What a change leaves behind, for the device's lock. */
  lemma {:induction false} ChangeExplains(text: string, uid: int, force: bool, asked: Status, given: Option<string>)
    ensures var c := Changed(text, uid, force, asked, given);
            var was, now := Current(text).1, Current(c.text).1;
            && (was == Program ==> now == Program || c.unlink)
            && (asked == Program && given.None? ==> now == Program || c.unlink || was == Free)
  {
    var c := Changed(text, uid, force, asked, given);
    if c.verdict == Granted { GrantedState(text, uid, force, asked, given); }
  }

  lemma {:induction false} ExplainedChange(w: World, p: nat, leaked: bool)
    requires Explained(w, leaked) && PcOf(w, p).Changing? && !Blocked(w, p)
    ensures Explained(Stepped(w, p), LeaksAt(w, Step(p)) || leaked)
  {
    var w', pc, d := Stepped(w, p), PcOf(w, p), DevOf(w, p);
    ChangeExplains(Text(w, d), pc.uid, pc.force, pc.asked, pc.given);
    assert Text(w', d) == Changed(Text(w, d), pc.uid, pc.force, pc.asked, pc.given).text;
    if w.lock.Some? && !leaked {
      if exists e :: StatusOf(w, e) == Program {
        var e :| StatusOf(w, e) == Program;
        if e != d { assert StatusOf(w', e) == Program; }
        else { assert StatusOf(w', d) == Program || Holding(PcOf(w', p)); }
      } else {
        var q :| Holding(PcOf(w, q));
        if q != p { assert Holding(PcOf(w', q)); }
        else { assert StatusOf(w', d) == Program || Holding(PcOf(w', p)) || LeaksAt(w, Step(p)); }
      }
    }
  }

  /** A step of p that leaves the files and the existence of the lock alone and lets nothing go. */
  lemma {:induction false} ExplainedMove(w: World, w': World, p: nat, leaked: bool)
    requires Explained(w, leaked) && w'.files == w.files && w'.lock.Some? == w.lock.Some?
    requires forall q :: q != p ==> PcOf(w', q) == PcOf(w, q)
    requires Holding(PcOf(w, p)) ==> Holding(PcOf(w', p))
    ensures Explained(w', leaked)
  {
    if w.lock.Some? && !leaked {
      if exists d :: StatusOf(w, d) == Program {
        var d :| StatusOf(w, d) == Program;
        assert StatusOf(w', d) == Program;
      } else {
        var q :| Holding(PcOf(w, q));
        assert Holding(PcOf(w', q));
      }
    }
  }

  lemma {:induction false} ExplainedNext(w: World, e: Event, leaked: bool)
    requires Explained(w, leaked) && !e.Kill?
    ensures Explained(Next(w, e), LeaksAt(w, e) || (leaked && !RemovesAt(w, e)))
  {
    match e
    case Start(p, _, _, _, _) => ExplainedMove(w, Next(w, e), p, leaked);
    case Step(p) =>
      match PcOf(w, p)
      case Changing(_, _, _, _) => if !Blocked(w, p) { ExplainedChange(w, p, leaked); }
      case Seeking(_, _) =>
        if w.lock.None? { assert Holding(PcOf(Next(w, e), p)); } else { ExplainedMove(w, Next(w, e), p, leaked); }
      case Unlinking =>
      case _ => ExplainedMove(w, Next(w, e), p, leaked);
  }

  lemma {:induction false} ExplainedRun(w: World, es: seq<Event>)
    requires w.lock.None? && KillFree(es)
    ensures Explained(Run(w, es), Leaked(w, es))
  {
    if es != [] {
      ExplainedRun(w, es[..|es| - 1]);
      ExplainedNext(Run(w, es[..|es| - 1]), es[|es| - 1], Leaked(w, es[..|es| - 1]));
    }
  }

  /** For every run in which no process is killed, forced or not, that ends with all processes idle and no
      device in PROGRAM: a lock file is there exactly when some step asked for PROGRAM on a free device and
      nobody has removed the lock since. */
  lemma {:induction false} LockLeakedIff(w: World, es: seq<Event>)
    requires w.lock.None? && KillFree(es)
    requires forall p :: PcOf(Run(w, es), p) == Idle
    requires forall d :: StatusOf(Run(w, es), d) != Program
    ensures Run(w, es).lock.Some? <==> Leaked(w, es)
  {
    ExplainedRun(w, es);
  }

  /** On a quiet machine, a request to program a free device leaves the lock behind: every process is idle
      again, no file has changed, and the lock file is there. */
  lemma {:induction false} LeakHappens(w: World, p: nat, d: nat, uid: int)
    requires Quiet(w) && StatusOf(w, d) == Free
    ensures var after := Run(w, Ask(p, d, uid) + [Step(p)]);
            && after.lock.Some? && (forall q :: PcOf(after, q) == Idle)
            && (forall e :: Text(after, e) == Text(w, e))
  {
    assert PcOf(w, p) == Idle;
    AskTakesLock(w, p, d, uid);
    RunSnoc(w, Ask(p, d, uid), Step(p));
    var w3 := Run(w, Ask(p, d, uid));
    forall q | q != p ensures PcOf(w3, q) == Idle { assert PcOf(w, q) == Idle; }
    forall q | q in w3.procs && q != p ensures w3.procs[q].pc != Unlinking { assert PcOf(w3, q) == Idle; }
    assert !Blocked(w3, p);
    var after := Next(w3, Step(p));
    forall q ensures PcOf(after, q) == Idle { assert q != p ==> PcOf(after, q) == PcOf(w3, q); }
  }

  // ---------------------------------------------------------------------
  // Who owns a device
  // ---------------------------------------------------------------------

  /** The event is a step in which a change of device d is granted. */
  ghost predicate Grants(w: World, e: Event, d: nat) {
    && e.Step? && DevOf(w, e.pid) == d && PcOf(w, e.pid).Changing? && !Blocked(w, e.pid)
    && var pc := PcOf(w, e.pid); Changed(Text(w, d), pc.uid, pc.force, pc.asked, pc.given).verdict == Granted
  }

  ghost predicate Reserves(w: World, e: Event, d: nat) { Grants(w, e, d) && PcOf(w, e.pid).asked == Reserved }

  /** The user whose reservation of d was the last one granted in the run, if any. */
  ghost function LastReserver(w: World, es: seq<Event>, d: nat): Option<int> {
    if es == [] then None
    else
      var before, e := Run(w, es[..|es| - 1]), es[|es| - 1];
      if Reserves(before, e, d) then Some(PcOf(before, e.pid).uid) else LastReserver(w, es[..|es| - 1], d)
  }

  lemma {:induction false} ChangeAndOwner(text: string, uid: int, force: bool, asked: Status, given: Option<string>)
    ensures var c := Changed(text, uid, force, asked, given);
            var (owner, was) := Current(text);
            var (owner', now) := Current(c.text);
            if c.verdict == Granted && asked == Reserved then owner' == uid && now == Reserved
            else now != Free ==> was != Free && owner' == owner
  {
    if Changed(text, uid, force, asked, given).verdict == Granted {
      GrantedState(text, uid, force, asked, given);
    }
  }

  /** Only a granted change rewrites the file of a device. */
  lemma {:induction false} TextNext(w: World, e: Event, d: nat)
    ensures if Grants(w, e, d)
            then var pc := PcOf(w, e.pid); Text(Next(w, e), d) == Changed(Text(w, d), pc.uid, pc.force, pc.asked, pc.given).text
            else Text(Next(w, e), d) == Text(w, d)
  {
    match e
    case Start(_, _, _, _, _) =>
    case Kill(_) =>
    case Step(p) =>
      if PcOf(w, p).Changing? {
        var pc := PcOf(w, p);
        if !Blocked(w, p) && DevOf(w, p) == d {
          assert Text(Stepped(w, p), d) == Changed(Text(w, d), pc.uid, pc.force, pc.asked, pc.given).text;
        }
      }
  }

  /** One step and the owner of a device: it changes hands only by a granted reservation. */
  lemma {:induction false} OwnerNext(w: World, e: Event, d: nat)
    ensures Reserves(w, e, d) ==> OwnerOf(Next(w, e), d) == PcOf(w, e.pid).uid && StatusOf(Next(w, e), d) == Reserved
    ensures !Reserves(w, e, d) && StatusOf(Next(w, e), d) != Free ==>
              StatusOf(w, d) != Free && OwnerOf(Next(w, e), d) == OwnerOf(w, d)
  {
    TextNext(w, e, d);
    if Grants(w, e, d) {
      var pc := PcOf(w, e.pid);
      ChangeAndOwner(Text(w, d), pc.uid, pc.force, pc.asked, pc.given);
    }
  }

  /** In every run that starts with the device free, forced or not, a device that is not free belongs
      to the user whose reservation of it was granted last. */
  lemma {:induction false} OwnerReservedLast(w: World, es: seq<Event>, d: nat)
    requires StatusOf(w, d) == Free
    ensures StatusOf(Run(w, es), d) != Free ==> LastReserver(w, es, d) == Some(OwnerOf(Run(w, es), d))
  {
    if es != [] {
      OwnerReservedLast(w, es[..|es| - 1], d);
      OwnerNext(Run(w, es[..|es| - 1]), es[|es| - 1], d);
    }
  }

  ghost predicate NoForce(w: World) { forall p :: !Forced(PcOf(w, p)) }

  lemma {:induction false} NoForceNext(w: World, e: Event)
    requires NoForce(w) && !(e.Start? && e.force)
    ensures NoForce(Next(w, e))
  {
    var now := Next(w, e);
    forall p ensures !Forced(PcOf(now, p)) {
      assert !Forced(PcOf(w, p));
      if p == e.pid && e.Start? && PcOf(w, p) == Idle {
        assert PcOf(now, p) == Begin(e.uid, false, e.request);
      }
    }
  }

  /** The event is a granted change of device d by a process of the user. */
  ghost predicate GrantsTo(w: World, e: Event, d: nat, uid: int) { Grants(w, e, d) && PcOf(w, e.pid).uid == uid }

  /** In every run without --force, the file of a reserved device stays as it is until a change is granted to
      a process of its owner. */
  lemma {:induction false} OnlyTheOwnerChanges(w: World, es: seq<Event>, d: nat)
    requires NoForce(w) && Unforced(es) && StatusOf(w, d) != Free
    requires forall k :: 0 <= k < |es| ==> !GrantsTo(Run(w, es[..k]), es[k], d, OwnerOf(w, d))
    ensures NoForce(Run(w, es)) && Text(Run(w, es), d) == Text(w, d)
  {
    if es != [] {
      var front, e := es[..|es| - 1], es[|es| - 1];
      forall k | 0 <= k < |front|
        ensures !GrantsTo(Run(w, front[..k]), front[k], d, OwnerOf(w, d))
      {
        assert front[..k] == es[..k];
      }
      OnlyTheOwnerChanges(w, front, d);
      var before := Run(w, front);
      assert es[..|front|] == front && !GrantsTo(before, e, d, OwnerOf(w, d));
      NoForceNext(before, e);
      TextNext(before, e, d);
      if Grants(before, e, d) {
        var pc := PcOf(before, e.pid);
        assert !Forced(pc);
        OthersChangeNothing(Text(before, d), pc.uid, pc.asked, pc.given);
      }
    }
  }

  /** The event is a granted PROGRAM or RESET of device d. */
  ghost predicate Resigns(w: World, e: Event, d: nat) {
    Grants(w, e, d) && (PcOf(w, e.pid).asked == Program || PcOf(w, e.pid).asked == Reset)
  }

  ghost predicate NeverResigns(w: World, es: seq<Event>, d: nat) {
    forall k :: 0 <= k < |es| ==> !Resigns(Run(w, es[..k]), es[k], d)
  }

  /** Over any run without a granted PROGRAM or RESET on it, the signature of a device stays. */
  lemma {:induction false} SignatureSurvives(w: World, es: seq<Event>, d: nat)
    requires NeverResigns(w, es, d)
    ensures Signature(Text(Run(w, es), d)) == Signature(Text(w, d))
  {
    if es != [] {
      var front, e := es[..|es| - 1], es[|es| - 1];
      forall k | 0 <= k < |front|
        ensures !Resigns(Run(w, front[..k]), front[k], d)
      {
        assert front[..k] == es[..k];
      }
      SignatureSurvives(w, front, d);
      assert es[..|front|] == front;
      assert !Resigns(Run(w, front), e, d);
      SignatureNext(Run(w, front), e, d);
    }
  }

  lemma {:induction false} SignatureNext(w: World, e: Event, d: nat)
    requires !Resigns(w, e, d)
    ensures Signature(Text(Next(w, e), d)) == Signature(Text(w, d))
  {
    TextNext(w, e, d);
    if Grants(w, e, d) {
      var pc := PcOf(w, e.pid);
      SignatureKept(Text(w, d), pc.uid, pc.force, pc.asked, pc.given);
    }
  }

  // ---------------------------------------------------------------------
  // The program
  // ---------------------------------------------------------------------

  class Host {
    var files: map<nat, string>
    var progLock: Option<string>

    constructor (files: map<nat, string>, progLock: Option<string>)
      ensures this.files == files && this.progLock == progLock
    {
      this.files := files;
      this.progLock := progLock;
    }

    function FileOf(d: nat): string
      reads this
    {
      if d in files then files[d] else ""
    }

    method ChangeCurrentReservation(d: nat, uid: int, force: bool, asked: Status, given: Option<string>)
      returns (verdict: Verdict)
      modifies this
      ensures var c := Changed(old(FileOf(d)), uid, force, asked, given);
              && verdict == c.verdict && FileOf(d) == c.text
              && progLock == if c.unlink then None else old(progLock)
      ensures forall e: nat :: e != d ==> FileOf(e) == old(FileOf(e))
    {
      var text, unlink;
      verdict, text, unlink := Rewritten(FileOf(d), uid, force, asked, given);
      files := files[d := text];
      if unlink { progLock := None; }
    }

    /** Read the file, check the rules, and compute what it will hold. */
    static method Rewritten(text: string, uid: int, force: bool, asked: Status, given: Option<string>)
      returns (verdict: Verdict, after: string, unlink: bool)
      ensures Change(verdict, after, unlink) == Changed(text, uid, force, asked, given)
    {
      var (owner, was) := Current(text);
      var ok, signature := Sign(text, was, asked, given);
      if !ok { return Died, text, false; }
      verdict, unlink := Settle(uid, force, owner, was, asked, given);
      after := if verdict == Granted then Print(uid, Code(Goal(asked)), signature) else text;
    }

    /** The signature the file will carry; adding one needs the device to be in PROGRAM. */
    static method Sign(text: string, was: Status, asked: Status, given: Option<string>) returns (ok: bool, signature: string)
      ensures ok <==> !(asked == Program && given.Some? && was != Program)
      ensures ok ==> signature == NewSignature(text, asked, given)
    {
      ok, signature := true, Signature(text);
      if asked == Program {
        if given.Some? {
          if was != Program { return false, signature; }
          signature := if |given.value| <= MAX_SIGNATURE then given.value else given.value[..MAX_SIGNATURE];
        } else {
          signature := "";
        }
      } else if asked == Reset {
        signature := "";
      } else if Scan(text).count < 3 {
        signature := "";
      }
    }

    /** The rules on who may do what; leaving PROGRAM, or failing to enter it, gives the lock back. */
    static method Settle(uid: int, force: bool, owner: int, was: Status, asked: Status, given: Option<string>)
      returns (verdict: Verdict, unlink: bool)
      requires !(asked == Program && given.Some? && was != Program)
      ensures (verdict, unlink) == Decide(owner, was, uid, force, asked, given)
    {
      var goal := Goal(asked);
      if was != Free {
        if uid == owner {
          if goal == Reserved { return Refused, false; }
        } else if goal == Free || goal == Reserved {
          if !force {
            return if goal == Reserved then Refused else Died, false;
          }
        } else {
          return Died, was != Program && goal == Program;
        }
      }
      if was == Free && goal != Free && goal != Reserved { return Died, false; }
      return Granted, was == Program && goal != Program;
    }

    /** One pass of the waiting loop of program_dev. */
    method TryProgramLock(d: nat, force: bool) returns (got: bool)
      modifies this
      ensures files == old(files)
      ensures old(progLock).None? ==> got && progLock == Some(LockText(d))
      ensures old(progLock).Some? ==> progLock == old(progLock) && (got <==> Names(progLock.value, d) || force)
    {
      if progLock.None? {
        progLock := Some(LockText(d));
        return true;
      }
      var id := ScanInt(progLock.value);
      if id.Some? && id.value.0 == d { return true; }
      got := force;
    }

    /** Reserve the first device of the class that can be had; -1 when there is none. */
    method Reserve(classes: seq<string>, kind: string, uid: int, force: bool) returns (id: int)
      modifies this
      ensures -1 <= id < |classes|
      ensures forall j :: 0 <= j < (if id < 0 then |classes| else id) && classes[j] == kind ==>
                Changed(old(FileOf(j)), uid, force, Reserved, None).verdict != Granted
      ensures id >= 0 ==>
                && classes[id] == kind
                && Changed(old(FileOf(id)), uid, force, Reserved, None).verdict == Granted
                && Current(FileOf(id)) == (uid, Reserved)
      ensures forall j: nat :: j != id ==> FileOf(j) == old(FileOf(j))
      ensures id < 0 ==> progLock == old(progLock)
      ensures (exists j :: 0 <= j < |classes| && classes[j] == kind && Odd(old(FileOf(j)))) ==> id >= 0
      ensures (exists j :: 0 <= j < |classes| && classes[j] == kind && j !in old(files)) ==> id >= 0
    {
      EmptyIsOdd();
      id := -1;
      var i := 0;
      while i < |classes|
        invariant 0 <= i <= |classes|
        invariant forall j :: 0 <= j < i && classes[j] == kind ==>
                    Changed(old(FileOf(j)), uid, force, Reserved, None).verdict != Granted
        invariant forall j: nat :: FileOf(j) == old(FileOf(j))
        invariant progLock == old(progLock)
        invariant forall j :: 0 <= j < i && classes[j] == kind ==> !Odd(old(FileOf(j)))
      {
        if classes[i] == kind {
          if Odd(FileOf(i)) { OddIsFree(FileOf(i), uid); }
          var verdict := ChangeCurrentReservation(i, uid, force, Reserved, None);
          if verdict == Granted {
            GrantedState(old(FileOf(i)), uid, force, Reserved, None);
            return i;
          }
        }
        i := i + 1;
      }
    }
  }
}
