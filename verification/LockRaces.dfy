// How a process loses the programming lock it relies on: exactly when the lock protects, and how it fails.
module LockRaces {
  import opened Common
  import opened CText
  import opened ResFile
  import opened Reservation

  // ---------------------------------------------------------------------
  // The lock protects exactly the runs without a race
  // ---------------------------------------------------------------------

  /** The lock file names every device that is in PROGRAM or has a process about to enter it. */
  ghost predicate Covered(w: World) {
    && (forall d :: SafeDev(w, d))
    && (forall p :: Waiting(PcOf(w, p)) ==> LockNames(w, DevOf(w, p)))
  }

  lemma {:induction false} SafeIsCovered(w: World)
    requires Safe(w)
    ensures Covered(w)
  {
    forall p | Waiting(PcOf(w, p)) ensures LockNames(w, DevOf(w, p)) { assert SafeProc(w, p); }
    forall d ensures SafeDev(w, d) { assert SafeDev(w, d); }
  }

  /** After a race there is no lock, and the process that lost it goes on. */
  lemma {:induction false} RaceUncovers(w: World, e: Event)
    requires Races(w, e)
    ensures !Covered(Next(w, e))
  {
    var q :| Loses(w, e.pid, q);
    assert PcOf(Next(w, e), q) == PcOf(w, q) && Next(w, e).lock.None?;
  }

  lemma {:induction false} RaceFreePrefix(w: World, es: seq<Event>, k: nat)
    requires RaceFree(w, es) && k <= |es|
    ensures RaceFree(w, es[..k])
  {
    forall j | 0 <= j < k ensures !Races(Run(w, es[..k][..j]), es[..k][j]) {
      assert es[..k][..j] == es[..j];
    }
  }

  lemma {:induction false} RaceFreeIsCovered(w: World, es: seq<Event>, k: nat)
    requires Quiet(w) && Unforced(es) && RaceFree(w, es) && k <= |es|
    ensures Covered(Run(w, es[..k]))
  {
    QuietIsSafe(w);
    RaceFreePrefix(w, es, k);
    SafeRun(w, es[..k]);
    SafeIsCovered(Run(w, es[..k]));
  }

  lemma {:induction false} RaceIsUncovered(w: World, es: seq<Event>, k: nat)
    requires k < |es| && Races(Run(w, es[..k]), es[k])
    ensures !Covered(Run(w, es[..k + 1]))
  {
    RaceUncovers(Run(w, es[..k]), es[k]);
    assert es[..k + 1][..k] == es[..k];
  }

  /** Exactly when the lock does its work: from a quiet machine and without --force, every device in PROGRAM
      and every process about to enter it is covered by the lock at every point of the run if and only if the
      run has no race. */
  lemma {:induction false} CoveredIffRaceFree(w: World, es: seq<Event>)
    requires Quiet(w) && Unforced(es)
    ensures (forall k :: 0 <= k <= |es| ==> Covered(Run(w, es[..k]))) <==> RaceFree(w, es)
  {
    if RaceFree(w, es) {
      forall k | 0 <= k <= |es| ensures Covered(Run(w, es[..k])) { RaceFreeIsCovered(w, es, k); }
    } else {
      var k :| 0 <= k < |es| && Races(Run(w, es[..k]), es[k]);
      RaceIsUncovered(w, es, k);
    }
  }

  /** At most one process at a time works on each device. */
  ghost predicate OneAtATime(w: World) {
    forall p, q :: PcOf(w, p) != Idle && PcOf(w, q) != Idle && DevOf(w, p) == DevOf(w, q) ==> p == q
  }

  /** Then there are no races. */
  lemma {:induction false} OneAtATimeIsRaceFree(w: World, es: seq<Event>)
    requires forall k :: 0 <= k < |es| ==> OneAtATime(Run(w, es[..k]))
    ensures RaceFree(w, es)
  {
    forall k | 0 <= k < |es| ensures !Races(Run(w, es[..k]), es[k]) {
      var now := Run(w, es[..k]);
      assert OneAtATime(now);
      if es[k].Step? && PcOf(now, es[k].pid).Unlinking? {
        forall q ensures !Loses(now, es[k].pid, q) {}
      }
    }
  }

  // ---------------------------------------------------------------------
  // Every race can do harm
  // ---------------------------------------------------------------------

  /** What the process that lost the lock does with its next step: it enters PROGRAM without a lock file
      exactly when it belongs to the device's owner. */
  lemma {:induction false} RaceBreaks(w: World, p: nat, q: nat)
    requires Safe(w) && PcOf(w, p).Unlinking? && Loses(w, p, q)
    ensures var d, after := DevOf(w, p), Next(Next(w, Step(p)), Step(q));
            StatusOf(after, d) == Program && after.lock.None?
            <==> StatusOf(w, d) != Free && OwnerOf(w, d) == PcOf(w, q).uid
  {
    var d, w1 := DevOf(w, p), Next(w, Step(p));
    assert SafeProc(w, p) && SafeProc(w, q);
    forall r | r in w1.procs && r != q && w1.procs[r].dev == d
      ensures !w1.procs[r].pc.Unlinking?
    {
      assert Alone(w, p, r);
      assert r != p ==> ProcOf(w1, r) == ProcOf(w, r);
    }
    assert !Blocked(w1, q);
    var pc := PcOf(w, q);
    var c := Changed(Text(w, d), pc.uid, false, Program, None);
    assert Text(Next(w1, Step(q)), d) == c.text;
    GrantedIff(Text(w, d), pc.uid, false, Program, None);
    if c.verdict == Granted { GrantedState(Text(w, d), pc.uid, false, Program, None); }
  }

  /** No process on the device is about to remove the lock. */
  ghost predicate NoneRemoves(w: World, d: nat) {
    forall q :: PcOf(w, q) == Unlinking ==> DevOf(w, q) != d
  }

  lemma {:induction false} NotBlocked(w: World, p: nat)
    requires NoneRemoves(w, DevOf(w, p))
    ensures !Blocked(w, p)
  {
    forall q | q in w.procs && w.procs[q].dev == DevOf(w, p) ensures w.procs[q].pc != Unlinking {
      assert PcOf(w, q) == w.procs[q].pc && DevOf(w, q) == w.procs[q].dev;
    }
  }

  /** A request that is one change, asked by an idle process, and the lock is not touched. */
  lemma {:induction false} OneChange(w: World, r: nat, d: nat, uid: int, request: Request, asked: Status)
    requires PcOf(w, r) == Idle && NoneRemoves(w, d)
    requires Begin(uid, false, request) == Changing(uid, false, asked, None)
    requires !Changed(Text(w, d), uid, false, asked, None).unlink
    ensures var after := Next(Next(w, Start(r, d, uid, false, request)), Step(r));
            && Text(after, d) == Changed(Text(w, d), uid, false, asked, None).text && after.lock == w.lock
            && PcOf(after, r) == Idle && NoneRemoves(after, d) && forall q :: q != r ==> ProcOf(after, q) == ProcOf(w, q)
  {
    var w1 := Next(w, Start(r, d, uid, false, request));
    assert PcOf(w1, r) == Changing(uid, false, asked, None);
    forall q | PcOf(w1, q) == Unlinking ensures DevOf(w1, q) != d { assert PcOf(w, q) == PcOf(w1, q); }
    NotBlocked(w1, r);
    var after := Next(w1, Step(r));
    forall q | q != r ensures ProcOf(after, q) == ProcOf(w, q) {}
    forall q | PcOf(after, q) == Unlinking ensures DevOf(after, q) != d { assert q != r && ProcOf(after, q) == ProcOf(w, q); }
  }

  /** The owner gives the device up, the user who lost the lock reserves it, and goes on. */
  function Takeover(r: nat, d: nat, owner: int, uid: int): seq<Event> {
    [Start(r, d, owner, false, AskDrop), Step(r), Start(r, d, uid, false, AskReserve), Step(r)]
  }

  lemma {:induction false} RunTwice(w: World, a: Event, b: Event, c: Event, d: Event)
    ensures Run(w, [a, b, c, d]) == Next(Next(Next(Next(w, a), b), c), d)
  {
    assert [a, b, c, d] == [a, b, c] + [d];
    RunSnoc(w, [a, b, c], d);
    RunThree(w, a, b, c);
  }

  lemma {:induction false} TakenOver(w: World, r: nat, d: nat, uid: int)
    requires PcOf(w, r) == Idle && NoneRemoves(w, d) && StatusOf(w, d) != Program
    ensures var after := Run(w, Takeover(r, d, OwnerOf(w, d), uid));
            && StatusOf(after, d) == Reserved && OwnerOf(after, d) == uid && after.lock == w.lock
            && NoneRemoves(after, d) && forall q :: q != r ==> ProcOf(after, q) == ProcOf(w, q)
  {
    var owner := OwnerOf(w, d);
    OneChange(w, r, d, owner, AskDrop, Free);
    GrantedState(Text(w, d), owner, false, Free, None);
    var w2 := Next(Next(w, Start(r, d, owner, false, AskDrop)), Step(r));
    OneChange(w2, r, d, uid, AskReserve, Reserved);
    GrantedState(Text(w2, d), uid, false, Reserved, None);
    RunTwice(w, Start(r, d, owner, false, AskDrop), Step(r), Start(r, d, uid, false, AskReserve), Step(r));
  }

  lemma {:induction false} RunAround(w: World, a: Event, es: seq<Event>, b: Event)
    ensures Run(w, [a] + es + [b]) == Next(Run(Next(w, a), es), b)
  {
    assert [a] == [] + [a];
    RunSnoc(w, [], a);
    RunConcat(w, [a], es);
    RunSnoc(w, [a] + es, b);
  }

  lemma {:induction false} UnforcedAround(a: Event, es: seq<Event>, b: Event)
    requires Unforced(es) && !a.Start? && !b.Start?
    ensures Unforced([a] + es + [b])
  {
    var all := [a] + es + [b];
    forall k | 0 <= k < |all| ensures !(all[k].Start? && all[k].force) {
      assert 0 < k <= |es| ==> all[k] == es[k - 1];
    }
  }

  lemma {:induction false} UnforcedConcat(a: seq<Event>, b: seq<Event>)
    requires Unforced(a) && Unforced(b)
    ensures Unforced(a + b)
  {}

  /** Right after the race there is no lock, nobody else is about to remove one, and the loser goes on. */
  lemma {:induction false} AfterRace(w: World, p: nat, q: nat)
    requires Safe(w) && PcOf(w, p).Unlinking? && Loses(w, p, q)
    ensures var d, w1 := DevOf(w, p), Next(w, Step(p));
            && w1.lock.None? && Text(w1, d) == Text(w, d) && StatusOf(w1, d) != Program && NoneRemoves(w1, d)
            && ProcOf(w1, q) == Process(d, Changing(PcOf(w, q).uid, false, Program, None))
  {
    var d, w1 := DevOf(w, p), Next(w, Step(p));
    assert SafeProc(w, p) && SafeProc(w, q);
    forall x | PcOf(w1, x) == Unlinking ensures DevOf(w1, x) != d { assert Alone(w, p, x) && ProcOf(w1, x) == ProcOf(w, x); }
  }

  /** Once the device is reserved for it, the loser enters PROGRAM without a lock. */
  lemma {:induction false} LoserEnters(w: World, q: nat, r: nat, d: nat, uid: int)
    requires w.lock.None? && StatusOf(w, d) != Program && NoneRemoves(w, d) && r != q && PcOf(w, r) == Idle
    requires ProcOf(w, q) == Process(d, Changing(uid, false, Program, None))
    ensures var after := Next(Run(w, Takeover(r, d, OwnerOf(w, d), uid)), Step(q));
            StatusOf(after, d) == Program && after.lock.None?
  {
    TakenOver(w, r, d, uid);
    OwnerEnters(Run(w, Takeover(r, d, OwnerOf(w, d), uid)), q, d, uid);
  }

  lemma {:induction false} TakeoverUnforced(r: nat, d: nat, owner: int, uid: int, p: nat, q: nat)
    ensures Unforced([Step(p)] + Takeover(r, d, owner, uid) + [Step(q)])
  {
    UnforcedAround(Step(p), Takeover(r, d, owner, uid), Step(q));
  }

  /** Whoever loses the lock: from a safe world, the race can go on, without --force, to a device that is in
      PROGRAM while there is no lock file. */
  lemma {:induction false} EveryRaceCanBreak(w: World, p: nat, q: nat, r: nat)
    requires Safe(w) && PcOf(w, p).Unlinking? && Loses(w, p, q) && PcOf(w, r) == Idle
    ensures var d, uid := DevOf(w, p), PcOf(w, q).uid;
            var more := [Step(p)] + Takeover(r, d, OwnerOf(w, d), uid) + [Step(q)];
            && Unforced(more) && StatusOf(Run(w, more), d) == Program && Run(w, more).lock.None?
  {
    var d, uid, w1 := DevOf(w, p), PcOf(w, q).uid, Next(w, Step(p));
    var take := Takeover(r, d, OwnerOf(w, d), uid);
    AfterRace(w, p, q);
    LoserEnters(w1, q, r, d, uid);
    RunAround(w, Step(p), take, Step(q));
    TakeoverUnforced(r, d, OwnerOf(w, d), uid, p, q);
  }

  /** A process number nobody uses. */
  lemma {:induction false} UnusedPid(procs: set<nat>) returns (r: nat)
    ensures forall p :: p in procs ==> p < r
  {
    r := 0;
    if procs != {} {
      var p :| p in procs;
      var others := procs - {p};
      r := UnusedPid(others);
      assert forall x :: x in procs ==> x == p || x in others;
      r := if r > p then r else p + 1;
    }
  }

  lemma {:induction false} RaceInPrefix(w: World, es: seq<Event>, k: nat) returns (j: nat)
    requires k <= |es| && !RaceFree(w, es[..k])
    ensures j < k && Races(Run(w, es[..j]), es[j])
  {
    j :| j < k && Races(Run(w, es[..k][..j]), es[..k][j]);
    assert es[..k][..j] == es[..j];
  }

  lemma {:induction false} FirstRace(w: World, es: seq<Event>, n: nat) returns (k: nat)
    requires n <= |es| && !RaceFree(w, es[..n])
    ensures k < n && Races(Run(w, es[..k]), es[k]) && RaceFree(w, es[..k])
  {
    k := RaceInPrefix(w, es, n);
    if !RaceFree(w, es[..k]) { k := FirstRace(w, es, k); }
  }

  /** For every unforced run with a race from a quiet machine, some prefix of it can go on, without --force, to a
      device in PROGRAM without a lock file. */
  lemma {:induction false} RacesCanBreak(w: World, es: seq<Event>) returns (k: nat, more: seq<Event>, d: nat)
    requires Quiet(w) && Unforced(es) && !RaceFree(w, es)
    ensures k <= |es| && Unforced(more)
    ensures StatusOf(Run(w, es[..k] + more), d) == Program && Run(w, es[..k] + more).lock.None?
  {
    assert es[..|es|] == es;
    k := FirstRace(w, es, |es|);
    QuietIsSafe(w);
    SafeRun(w, es[..k]);
    var now := Run(w, es[..k]);
    var p := es[k].pid;
    var q :| Loses(now, p, q);
    d := DevOf(now, p);
    var r := UnusedPid(now.procs.Keys);
    EveryRaceCanBreak(now, p, q, r);
    more := [Step(p)] + Takeover(r, d, OwnerOf(now, d), PcOf(now, q).uid) + [Step(q)];
    RunConcat(w, es[..k], more);
  }

  lemma {:induction false} OwnerEnters(w: World, p: nat, d: nat, owner: int)
    requires StatusOf(w, d) != Free && StatusOf(w, d) != Program && OwnerOf(w, d) == owner
    requires ProcOf(w, p) == Process(d, Changing(owner, false, Program, None)) && NoneRemoves(w, d)
    ensures var after := Next(w, Step(p));
            && StatusOf(after, d) == Program && after.lock == w.lock && PcOf(after, p) == Idle
            && (forall e :: e != d ==> Text(after, e) == Text(w, e))
            && forall q :: q != p ==> ProcOf(after, q) == ProcOf(w, q)
  {
    NotBlocked(w, p);
    OwnerIsGranted(Text(w, d), owner);
    var after := Next(w, Step(p));
    assert Text(after, d) == Changed(Text(w, d), owner, false, Program, None).text;
    forall q | q != p ensures ProcOf(after, q) == ProcOf(w, q) {}
  }

  // ---------------------------------------------------------------------
  // Two such runs
  // ---------------------------------------------------------------------

  /** A process about to enter PROGRAM on a device that another user has reserved is refused, and removes the
      lock. */
  lemma {:induction false} RefusedRemoves(w: World, p: nat, d: nat, uid: int)
    requires StatusOf(w, d) != Free && StatusOf(w, d) != Program && OwnerOf(w, d) != uid
    requires ProcOf(w, p) == Process(d, Changing(uid, false, Program, None)) && NoneUnlinks(w)
    ensures var after := Next(Next(w, Step(p)), Step(p));
            && after.lock == None && (forall e :: Text(after, e) == Text(w, e)) && NoneUnlinks(after)
            && forall q :: q != p ==> ProcOf(after, q) == ProcOf(w, q)
  {
    NobodyBlocks(w, p);
    var w1 := Next(w, Step(p));
    assert PcOf(w1, p) == Unlinking;
    var after := Next(w1, Step(p));
    forall q | q != p ensures ProcOf(after, q) == ProcOf(w, q) { assert ProcOf(w1, q) == ProcOf(w, q); }
    forall q ensures PcOf(after, q) != Unlinking { assert PcOf(w, q) != Unlinking; }
    forall e ensures Text(after, e) == Text(w, e) {}
  }

  lemma {:induction false} OwnerIsGranted(text: string, owner: int)
    requires Current(text).0 == owner && Current(text).1 != Free
    ensures Current(Changed(text, owner, false, Program, None).text).1 == Program
    ensures Current(text).1 != Program ==> !Changed(text, owner, false, Program, None).unlink
  {
    GrantedIff(text, owner, false, Program, None);
    GrantedState(text, owner, false, Program, None);
  }

  lemma {:induction false} BothAsk(w: World, d: nat, owner: int, other: int)
    requires Quiet(w)
    ensures Run(w, Ask(0, d, owner) + Ask(1, d, other))
            == World(w.files, Some(Lock(0, LockText(d))), Entering(1, d, other, Entering(0, d, owner, w.procs)))
  {
    assert PcOf(w, 0) == Idle && PcOf(w, 1) == Idle;
    AskTakesLock(w, 0, d, owner);
    LockTextNames(d);
    AskFindsLock(Run(w, Ask(0, d, owner)), 1, d, other);
    RunConcat(w, Ask(0, d, owner), Ask(1, d, other));
  }

  lemma {:induction false} QuietNoneUnlinks(w: World, d: nat, owner: int, other: int)
    requires Quiet(w)
    ensures NoneUnlinks(World(w.files, Some(Lock(0, LockText(d))), Entering(1, d, other, Entering(0, d, owner, w.procs))))
  {
    var now := World(w.files, Some(Lock(0, LockText(d))), Entering(1, d, other, Entering(0, d, owner, w.procs)));
    forall q ensures PcOf(now, q) != Unlinking {
      assert PcOf(w, q) == Idle;
      assert q > 1 ==> PcOf(now, q) == PcOf(w, q);
    }
  }

  lemma {:induction false} RunTwo(w: World, a: Event, b: Event)
    ensures Run(w, [a, b]) == Next(Next(w, a), b)
  {
    assert [a, b] == [a] + [b] && [a] == [] + [a];
    RunSnoc(w, [], a);
    RunSnoc(w, [a], b);
  }

  /** Two users ask to program a device; the second is refused and removes the lock that the first one made. */
  function SharedLock(d: nat, first: int, other: int): seq<Event> {
    Ask(0, d, first) + Ask(1, d, other) + [Step(1), Step(1)]
  }

  lemma {:induction false} SharedLockUnforced(d: nat, first: int, other: int)
    ensures Unforced(SharedLock(d, first, other))
  {
    UnforcedConcat(Ask(0, d, first), Ask(1, d, other));
    UnforcedConcat(Ask(0, d, first) + Ask(1, d, other), [Step(1), Step(1)]);
  }

  /** Process 0 is then about to enter PROGRAM, and there is no lock. */
  lemma {:induction false} LockShared(w: World, d: nat, first: int, other: int)
    requires Quiet(w) && StatusOf(w, d) != Free && OwnerOf(w, d) != other
    ensures var after := Run(w, SharedLock(d, first, other));
            && after.lock == None && (forall e :: Text(after, e) == Text(w, e)) && NoneUnlinks(after)
            && ProcOf(after, 0) == Process(d, Changing(first, false, Program, None)) && PcOf(after, 2) == Idle
  {
    assert StatusOf(w, d) != Program && PcOf(w, 2) == Idle;
    BothAsk(w, d, first, other);
    QuietNoneUnlinks(w, d, first, other);
    var asked := Ask(0, d, first) + Ask(1, d, other);
    RefusedRemoves(Run(w, asked), 1, d, other);
    RunTwo(Run(w, asked), Step(1), Step(1));
    RunConcat(w, asked, [Step(1), Step(1)]);
  }

  /** If the first one owns the device it enters PROGRAM: without --force, from any quiet world in which the
      device is reserved, the run ends in PROGRAM, with no lock. */
  lemma {:induction false} LostLockBreaks(w: World, d: nat, owner: int, other: int)
    requires Quiet(w) && StatusOf(w, d) != Free && OwnerOf(w, d) == owner != other
    ensures var run := SharedLock(d, owner, other) + [Step(0)];
            Unforced(run) && StatusOf(Run(w, run), d) == Program && Run(w, run).lock.None?
  {
    assert StatusOf(w, d) != Program;
    SharedLockUnforced(d, owner, other);
    LockShared(w, d, owner, other);
    OwnerEnters(Run(w, SharedLock(d, owner, other)), 0, d, owner);
    RunSnoc(w, SharedLock(d, owner, other), Step(0));
  }

  /** If not, another device can suffer: its owner makes a new lock for it and enters PROGRAM, and the refusal
      of process 0 removes that lock. */
  function StolenLock(d: nat, e: nat, owner: int, first: int, other: int): seq<Event> {
    SharedLock(d, first, other) + (Ask(2, e, owner) + [Step(2), Step(0), Step(0)])
  }

  /** The owner enters PROGRAM on e under its own lock, and process 0 takes that away. */
  lemma {:induction false} LockStolen(w: World, d: nat, e: nat, owner: int, second: int)
    requires w.lock.None? && NoneUnlinks(w) && PcOf(w, 2) == Idle && d != e
    requires ProcOf(w, 0) == Process(d, Changing(second, false, Program, None)) && OwnerOf(w, d) == owner == OwnerOf(w, e) != second
    requires StatusOf(w, d) != Free && StatusOf(w, d) != Program && StatusOf(w, e) != Free && StatusOf(w, e) != Program
    ensures var after := Run(w, Ask(2, e, owner) + [Step(2), Step(0), Step(0)]);
            StatusOf(after, e) == Program && after.lock.None?
  {
    AskTakesLock(w, 2, e, owner);
    var w3 := Run(w, Ask(2, e, owner));
    forall q ensures PcOf(w3, q) != Unlinking { assert PcOf(w, q) != Unlinking; }
    OwnerEnters(w3, 2, e, owner);
    var w4 := Next(w3, Step(2));
    forall q ensures PcOf(w4, q) != Unlinking { assert PcOf(w3, q) != Unlinking; }
    assert Text(w4, d) == Text(w3, d) == Text(w, d);
    RefusedRemoves(w4, 0, d, second);
    RunThree(w3, Step(2), Step(0), Step(0));
    RunConcat(w, Ask(2, e, owner), [Step(2), Step(0), Step(0)]);
  }

  lemma {:induction false} StolenLockUnforced(d: nat, e: nat, owner: int, first: int, other: int)
    ensures Unforced(StolenLock(d, e, owner, first, other))
  {
    SharedLockUnforced(d, first, other);
    UnforcedConcat(Ask(2, e, owner), [Step(2), Step(0), Step(0)]);
    UnforcedConcat(SharedLock(d, first, other), Ask(2, e, owner) + [Step(2), Step(0), Step(0)]);
  }

  /** Without --force, from any quiet world in which one user has reserved two devices and two others ask for
      the first, the run ends with the second device in PROGRAM and no lock. */
  lemma {:induction false} StolenLockBreaks(w: World, d: nat, e: nat, owner: int, first: int, other: int)
    requires Quiet(w) && d != e && StatusOf(w, d) != Free && StatusOf(w, e) != Free
    requires OwnerOf(w, d) == OwnerOf(w, e) == owner && first != owner && other != owner
    ensures var run := StolenLock(d, e, owner, first, other);
            Unforced(run) && StatusOf(Run(w, run), e) == Program && Run(w, run).lock.None?
  {
    var rest := Ask(2, e, owner) + [Step(2), Step(0), Step(0)];
    StolenLockUnforced(d, e, owner, first, other);
    LockShared(w, d, first, other);
    assert StatusOf(w, d) != Program && StatusOf(w, e) != Program;
    LockStolen(Run(w, SharedLock(d, first, other)), d, e, owner, first);
    RunConcat(w, SharedLock(d, first, other), rest);
  }
}
