// The activation ladder of the BlueNoC driver (activate and deactivate) and the numbering of boards
// by probe and remove.
module Activation {
  import opened Common

  // ---------------------------------------------------------------------
  // Levels and resources
  // ---------------------------------------------------------------------

  const NUM_BOARDS := 16
  const UNASSIGNED := 0

  const PROBED := 0
  const BOARD_NUM_ASSIGNED := 1
  const PCI_DEV_ENABLED := 2
  const BARS_ALLOCATED := 3
  const BARS_MAPPED := 4
  const MAGIC_MATCH := 5
  const DMA_MASK_SET := 6
  const MSI_ENABLED := 7
  const IRQ_ASSIGNED := 8
  const MSIX_INITIALIZED := 9
  const PCI_BUS_MASTER := 10
  const BLUENOC_ACTIVE := 11

  const EIO := 5
  const EFAULT := 14
  const EBUSY := 16
  const EINVAL := 22

  datatype Resource =
    Number | Device | Regions | Mapping | Messages(msix: bool) | Handler | Unmasked | Master | Network

  datatype Event = Take(r: Resource) | Give(r: Resource)

  /** What is gained by reaching a level from the one below it. */
  function Rung(level: nat, msix: bool): seq<Resource> {
    if level == BOARD_NUM_ASSIGNED then [Number]
    else if level == PCI_DEV_ENABLED then [Device]
    else if level == BARS_ALLOCATED then [Regions]
    else if level == BARS_MAPPED then [Mapping]
    else if level == MSI_ENABLED then [Messages(msix)]
    else if level == IRQ_ASSIGNED then [Handler]
    else if level == MSIX_INITIALIZED && msix then [Unmasked]
    else if level == PCI_BUS_MASTER then [Master]
    else if level == BLUENOC_ACTIVE then [Network]
    else []
  }

  /** Everything a board at a level holds, oldest first. */
  function Held(level: nat, msix: bool): seq<Resource> {
    if level == 0 then [] else Held(level - 1, msix) + Rung(level, msix)
  }

  /** The stack of resources after a trace; None if something is taken twice, or released when it is
      not the most recent one held. */
  function Replay(trace: seq<Event>): Option<seq<Resource>> {
    if trace == [] then Some([])
    else
      match Replay(trace[..|trace| - 1])
      case None => None
      case Some(held) =>
        match trace[|trace| - 1]
        case Take(r) => if r in held then None else Some(held + [r])
        case Give(r) =>
          if held != [] && held[|held| - 1] == r then Some(held[..|held| - 1]) else None
  }

  /** In a trace that replays, whatever is not held any more was released exactly as often as it was
      taken, and what is held was taken once more; nothing is held twice. */
  lemma {:induction false} ReleasedOnce(trace: seq<Event>, r: Resource)
    requires Replay(trace).Some?
    ensures multiset(trace)[Take(r)] == multiset(trace)[Give(r)] + multiset(Replay(trace).value)[r]
    ensures multiset(Replay(trace).value)[r] <= 1
  {
    if trace != [] {
      var init, last := trace[..|trace| - 1], trace[|trace| - 1];
      ReleasedOnce(init, r);
      CountSnoc(trace, Take(r));
      CountSnoc(trace, Give(r));
      if last.Give? { CountSnoc(Replay(init).value, r); } else { CountSnoc(Replay(trace).value, r); }
    }
  }

  /** A board that has only been numbered has released everything else exactly as often as it took it. */
  lemma {:induction false} IdleOwesNothing(trace: seq<Event>, msix: bool, r: Resource)
    requires Replay(trace) == Some(Held(BOARD_NUM_ASSIGNED, msix)) && r != Number
    ensures multiset(trace)[Take(r)] == multiset(trace)[Give(r)]
  {
    ReleasedOnce(trace, r);
    assert Held(BOARD_NUM_ASSIGNED, msix) == Held(PROBED, msix) + [Number] == [Number];
  }

  lemma {:induction false} CountSnoc<T>(s: seq<T>, x: T)
    requires s != []
    ensures multiset(s)[x] == multiset(s[..|s| - 1])[x] + if s[|s| - 1] == x then 1 else 0
  {
    assert s == s[..|s| - 1] + [s[|s| - 1]];
  }

  lemma {:induction false} ReplayTake(trace: seq<Event>, held: seq<Resource>, r: Resource)
    requires Replay(trace) == Some(held) && r !in held
    ensures Replay(trace + [Take(r)]) == Some(held + [r])
  {
    assert (trace + [Take(r)])[..|trace|] == trace;
  }

  lemma {:induction false} ReplayGive(trace: seq<Event>, held: seq<Resource>, r: Resource)
    requires Replay(trace) == Some(held + [r])
    ensures Replay(trace + [Give(r)]) == Some(held)
  {
    assert (trace + [Give(r)])[..|trace|] == trace;
    assert (held + [r])[..|held|] == held;
  }

  /** The level at which a resource is acquired. */
  function Home(r: Resource): nat {
    match r
    case Number => BOARD_NUM_ASSIGNED
    case Device => PCI_DEV_ENABLED
    case Regions => BARS_ALLOCATED
    case Mapping => BARS_MAPPED
    case Messages(_) => MSI_ENABLED
    case Handler => IRQ_ASSIGNED
    case Unmasked => MSIX_INITIALIZED
    case Master => PCI_BUS_MASTER
    case Network => BLUENOC_ACTIVE
  }

  lemma {:induction false} HeldBelow(level: nat, msix: bool, r: Resource)
    requires r in Held(level, msix)
    ensures Home(r) <= level
  {
    if level > 0 && r !in Rung(level, msix) { HeldBelow(level - 1, msix, r); }
  }

  /** Below MSI_ENABLED it does not matter which kind of interrupt the board last used. */
  lemma {:induction false} HeldIgnoresMsix(level: nat, a: bool, b: bool)
    requires level < MSI_ENABLED
    ensures Held(level, a) == Held(level, b)
  {
    if level > 0 { HeldIgnoresMsix(level - 1, a, b); }
  }

  // ---------------------------------------------------------------------
  // Climbing and falling
  // ---------------------------------------------------------------------

  function Takes(rs: seq<Resource>): seq<Event> {
    if rs == [] then [] else [Take(rs[0])] + Takes(rs[1..])
  }

  function Gives(rs: seq<Resource>): seq<Event> {
    if rs == [] then [] else Gives(rs[1..]) + [Give(rs[0])]
  }

  /** The events of climbing from one level to another. */
  function Climb(low: nat, high: nat, msix: bool): seq<Event>
    requires low <= high
  {
    if low == high then [] else Climb(low, high - 1, msix) + Takes(Rung(high, msix))
  }

  /** The events of deactivating from a level: everything above the board number is released. */
  function Fall(level: nat, msix: bool): seq<Event> {
    if level <= BOARD_NUM_ASSIGNED then [] else Gives(Rung(level, msix)) + Fall(level - 1, msix)
  }

  lemma {:induction false} TakesOne(rung: seq<Resource>)
    requires |rung| == 1
    ensures Takes(rung) == [Take(rung[0])] && rung == [rung[0]]
  {
    assert Takes(rung[1..]) == [];
  }

  lemma {:induction false} ReplayTakes(trace: seq<Event>, held: seq<Resource>, rung: seq<Resource>)
    requires Replay(trace) == Some(held) && |rung| <= 1 && (rung != [] ==> rung[0] !in held)
    ensures Replay(trace + Takes(rung)) == Some(held + rung)
  {
    if rung == [] {
      assert trace + Takes(rung) == trace && held + rung == held;
    } else {
      TakesOne(rung);
      ReplayTake(trace, held, rung[0]);
    }
  }

  lemma {:induction false} ReplayGives(trace: seq<Event>, held: seq<Resource>, rung: seq<Resource>)
    requires Replay(trace) == Some(held + rung) && |rung| <= 1
    ensures Replay(trace + Gives(rung)) == Some(held)
  {
    if rung == [] {
      assert trace + Gives(rung) == trace && held + rung == held;
    } else {
      assert Gives(rung) == [Give(rung[0])] && rung == [rung[0]];
      ReplayGive(trace, held, rung[0]);
    }
  }

  lemma {:induction false} RungIsNew(level: nat, msix: bool)
    requires level > 0
    ensures |Rung(level, msix)| <= 1
    ensures Rung(level, msix) != [] ==> Rung(level, msix)[0] !in Held(level - 1, msix)
  {
    var rung := Rung(level, msix);
    if rung != [] && rung[0] in Held(level - 1, msix) { HeldBelow(level - 1, msix, rung[0]); }
  }

  /** Climbing acquires exactly what the higher level names. */
  lemma {:induction false} ReplayClimb(trace: seq<Event>, low: nat, high: nat, msix: bool)
    requires low <= high && Replay(trace) == Some(Held(low, msix))
    ensures Replay(trace + Climb(low, high, msix)) == Some(Held(high, msix))
    decreases high
  {
    if low == high {
      assert trace + [] == trace;
    } else {
      ReplayClimb(trace, low, high - 1, msix);
      RungIsNew(high, msix);
      ReplayTakes(trace + Climb(low, high - 1, msix), Held(high - 1, msix), Rung(high, msix));
      Regroup(trace, Climb(low, high - 1, msix), Takes(Rung(high, msix)));
    }
  }

  /** Falling releases everything but the board number, most recent first. */
  lemma {:induction false} ReplayFall(trace: seq<Event>, level: nat, msix: bool)
    requires Replay(trace) == Some(Held(level, msix))
    ensures Replay(trace + Fall(level, msix)) == Some(Held(Rest(level), msix))
    decreases level
  {
    if level <= BOARD_NUM_ASSIGNED {
      assert trace + [] == trace;
    } else {
      RungIsNew(level, msix);
      ReplayGives(trace, Held(level - 1, msix), Rung(level, msix));
      ReplayFall(trace + Gives(Rung(level, msix)), level - 1, msix);
      Regroup(trace, Gives(Rung(level, msix)), Fall(level - 1, msix));
    }
  }

  /** Where deactivation leaves a board. */
  function Rest(level: nat): nat { if level <= BOARD_NUM_ASSIGNED then level else BOARD_NUM_ASSIGNED }

  // ---------------------------------------------------------------------
  // Kernel calls
  // ---------------------------------------------------------------------

  /** How the kernel and the board answer during one activation. */
  datatype Kernel = Kernel(
    enable: bool, request: bool, mapped: bool, magic: bv64, mask: bool, msi: bool, msix: bool, irq: bool)

  /** The letters of "Bluespec", the first in the lowest byte. */
  const EXPECTED_MAGIC: bv64 := 0x6365_7073_6575_6c42

  predicate StepFails(level: nat, k: Kernel, full: bool) {
    if level == PROBED then full
    else if level == BOARD_NUM_ASSIGNED then !k.enable
    else if level == PCI_DEV_ENABLED then !k.request
    else if level == BARS_ALLOCATED then !k.mapped
    else if level == BARS_MAPPED then k.magic != EXPECTED_MAGIC
    else if level == MAGIC_MATCH then !k.mask
    else if level == DMA_MASK_SET then !k.msi && !k.msix
    else if level == MSI_ENABLED then !k.irq
    else false
  }

  function ErrorAt(level: nat): int {
    if level == BARS_MAPPED then -EINVAL
    else if level == MAGIC_MATCH then -EIO
    else if level == PROBED || level == PCI_DEV_ENABLED || level == MSI_ENABLED then -EBUSY
    else -EFAULT
  }

  /** The highest level an activation reaches. */
  function Reached(level: nat, k: Kernel, full: bool): (r: nat)
    requires level <= BLUENOC_ACTIVE
    ensures level <= r <= BLUENOC_ACTIVE
    ensures r < BLUENOC_ACTIVE ==> StepFails(r, k, full)
    ensures forall l :: level <= l < r ==> !StepFails(l, k, full)
    decreases BLUENOC_ACTIVE - level
  {
    if level == BLUENOC_ACTIVE || StepFails(level, k, full) then level else Reached(level + 1, k, full)
  }

  /** Everything an activation needs from the kernel and the board. */
  predicate AllGranted(k: Kernel) {
    && k.enable && k.request && k.mapped && k.magic == 0x6365_7073_6575_6c42 && k.mask && (k.msi || k.msix) && k.irq
  }

  lemma {:induction false} ActiveIffGranted(k: Kernel)
    ensures Reached(BOARD_NUM_ASSIGNED, k, false) == BLUENOC_ACTIVE <==> AllGranted(k)
  {
    GrantedOrRefused(k);
  }

  /** A numbered board becomes active if and only if everything is granted; if not, the first thing refused gives
      the code. */
  lemma {:induction false} GrantedOrRefused(k: Kernel)
    ensures var top := Reached(BOARD_NUM_ASSIGNED, k, false);
            && (top == BLUENOC_ACTIVE <==> AllGranted(k))
            && (top != BLUENOC_ACTIVE ==>
                  ErrorAt(top) ==
                  if !k.enable then -14 else if !k.request then -16 else if !k.mapped then -14
                  else if k.magic != 0x6365_7073_6575_6c42 then -22 else if !k.mask then -5
                  else if !k.msi && !k.msix then -14 else -16)
  {
    var top := Reached(BOARD_NUM_ASSIGNED, k, false);
    forall l | BOARD_NUM_ASSIGNED <= l < top ensures !StepFails(l, k, false) {}
  }

  // ---------------------------------------------------------------------
  // Board numbers
  // ---------------------------------------------------------------------

  /** Some board in the list has this number. */
  ghost predicate Used(n: nat, list: seq<Board>)
    reads list
  {
    exists b :: b in list && b.number == n
  }

  /** The smallest number from 1 up that no board in the list has. */
  ghost predicate SmallestFree(n: nat, list: seq<Board>)
    reads list
  {
    n >= 1 && !Used(n, list) && forall m :: 1 <= m < n ==> Used(m, list)
  }

  /** All the numbers from 1 to 16 are used. */
  ghost predicate Full(list: seq<Board>)
    reads list
  {
    forall m :: 1 <= m <= NUM_BOARDS ==> Used(m, list)
  }

  method Collides(n: nat, list: seq<Board>) returns (collision: bool)
    ensures collision <==> Used(n, list)
  {
    collision := false;
    var i := 0;
    while i < |list| && !collision
      invariant 0 <= i <= |list|
      invariant !collision ==> forall j :: 0 <= j < i ==> list[j].number != n
      invariant collision ==> Used(n, list)
    {
      collision := list[i].number == n;
      i := i + 1;
    }
  }

  method FreeNumber(list: seq<Board>) returns (n: nat)
    ensures 1 <= n <= NUM_BOARDS + 1
    ensures if n <= NUM_BOARDS then SmallestFree(n, list) && !Full(list) else Full(list)
  {
    n := 1;
    while n <= NUM_BOARDS
      invariant 1 <= n <= NUM_BOARDS + 1
      invariant forall m :: 1 <= m < n ==> Used(m, list)
    {
      var collision := Collides(n, list);
      if !collision { return; }
      n := n + 1;
    }
  }

  // ---------------------------------------------------------------------
  // Boards
  // ---------------------------------------------------------------------

  class Board {
    /** The fields of tBoard that activation uses; `mapped` is bar0io != NULL. */
    var level: nat
    var number: nat
    var mapped: bool
    var msix: bool
    /** Every resource taken and released for this board. */
    var trace: seq<Event>

    constructor ()
      ensures Valid() && level == PROBED && number == UNASSIGNED && !mapped && !msix && trace == []
    {
      level, number, mapped, msix, trace := PROBED, UNASSIGNED, false, false, [];
    }

    /** The fields that go with the level. */
    ghost predicate Shaped()
      reads this`level, this`mapped, this`number
    {
      && level <= BLUENOC_ACTIVE
      && (level >= BARS_MAPPED ==> mapped)
      && (if level == PROBED then number == UNASSIGNED else 1 <= number <= NUM_BOARDS)
    }

    /** The resources held are exactly those named by the activation level, in the order acquired. */
    ghost predicate Valid()
      reads this
    {
      Shaped() && Replay(trace) == Some(Held(level, msix))
    }

    method Log(e: Event)
      modifies this`trace
      ensures trace == old(trace) + [e]
    {
      trace := trace + [e];
    }

    /** The case of one level in deactivate's switch. */
    method Undo(at: nat)
      requires BOARD_NUM_ASSIGNED < at <= BLUENOC_ACTIVE && (at >= BARS_MAPPED ==> mapped)
      modifies this`trace, this`level
      ensures trace == old(trace) + Gives(Rung(at, msix))
      ensures level == if at == PCI_DEV_ENABLED then BOARD_NUM_ASSIGNED else old(level)
    {
      ghost var rung := Rung(at, msix);
      if rung != [] { assert Gives(rung[1..]) == []; }
      if at == BLUENOC_ACTIVE { Log(Give(Network)); }
      else if at == PCI_BUS_MASTER { Log(Give(Master)); }
      else if at == MSIX_INITIALIZED { if msix { Log(Give(Unmasked)); } }
      else if at == IRQ_ASSIGNED { Log(Give(Handler)); }
      else if at == MSI_ENABLED { Log(Give(Messages(msix))); }
      else if at == BARS_MAPPED { if mapped { Log(Give(Mapping)); } }
      else if at == BARS_ALLOCATED { Log(Give(Regions)); }
      else if at == PCI_DEV_ENABLED {
        Log(Give(Device));
        level := BOARD_NUM_ASSIGNED;
      }
    }

    /** The switch falls through from the current level down, one case after another. */
    method Unwind()
      requires Shaped()
      modifies this`trace, this`level
      ensures Shaped() && level == Rest(old(level))
      ensures trace == old(trace) + Fall(old(level), msix)
    {
      var at: nat := level;
      ghost var fallen: seq<Event> := [];
      while at > BOARD_NUM_ASSIGNED
        invariant at <= old(level) && (old(level) >= BOARD_NUM_ASSIGNED ==> at >= BOARD_NUM_ASSIGNED)
        invariant fallen + Fall(at, msix) == Fall(old(level), msix)
        invariant trace == old(trace) + fallen
        invariant level == if at == BOARD_NUM_ASSIGNED then BOARD_NUM_ASSIGNED else old(level)
      {
        fallen := UndoNext(at, old(trace), fallen);
        at := at - 1;
      }
      assert fallen + [] == fallen;
    }

    /** One case of the switch. */
    method UndoNext(at: nat, ghost before: seq<Event>, ghost fallen: seq<Event>) returns (ghost more: seq<Event>)
      requires Shaped() && BOARD_NUM_ASSIGNED < at <= level && trace == before + fallen
      modifies this`trace, this`level
      ensures Shaped() && level == if at == PCI_DEV_ENABLED then BOARD_NUM_ASSIGNED else old(level)
      ensures trace == before + more && more + Fall(at - 1, msix) == fallen + Fall(at, msix)
    {
      Undo(at);
      FallStep(before, fallen, at, msix);
      more := fallen + Gives(Rung(at, msix));
    }

    method Deactivate()
      requires Valid()
      modifies this`trace, this`level
      ensures Valid() && level == Rest(old(level))
      ensures trace == old(trace) + Fall(old(level), msix)
    {
      ReplayFall(trace, level, msix);
      Unwind();
    }

    /** Acquire what the next level needs and move up to it. */
    method Rise(rs: seq<Resource>)
      requires Shaped() && PROBED < level < BLUENOC_ACTIVE && |rs| <= 1
      requires level + 1 >= BARS_MAPPED ==> mapped
      modifies this`trace, this`level
      ensures Shaped() && level == old(level) + 1 && trace == old(trace) + Takes(rs)
    {
      if |rs| > 0 {
        TakesOne(rs);
        Log(Take(rs[0]));
      } else {
        assert trace + Takes(rs) == trace;
      }
      level := level + 1;
    }

    /** Case PROBED: assign a board number. */
    method AssignNumber(list: seq<Board>) returns (err: int)
      requires Valid() && level == PROBED
      modifies this`trace, this`level, this`number
      ensures Valid() && err == if old(Full(list)) then -EBUSY else 0
      ensures if err != 0 then level == old(level) && trace == old(trace) && number == old(number)
              else level == old(level) + 1 && trace == old(trace) + Takes(Rung(BOARD_NUM_ASSIGNED, msix))
      ensures err == 0 ==> var n := number; n <= NUM_BOARDS && old(SmallestFree(n, list))
    {
      var n := FreeNumber(list);
      if n > NUM_BOARDS { return -EBUSY; }
      RungIsNew(1, msix);
      ReplayTakes(trace, [], [Number]);
      TakesOne([Number]);
      number := n;
      Log(Take(Number));
      level := BOARD_NUM_ASSIGNED;
      err := 0;
    }

    /** Case DMA_MASK_SET: enable message-signalled interrupts, of the older kind if possible. */
    method EnableMessages(k: Kernel) returns (err: int)
      requires Shaped() && level == DMA_MASK_SET
      modifies this`trace, this`level, this`msix
      ensures Shaped() && err == if !k.msi && !k.msix then -EFAULT else 0
      ensures if err != 0 then level == old(level) && trace == old(trace) && msix == old(msix)
              else level == old(level) + 1 && trace == old(trace) + Takes(Rung(MSI_ENABLED, msix)) && msix == !k.msi
    {
      if !k.msi && !k.msix { return -EFAULT; }
      msix := !k.msi;
      Rise([Messages(msix)]);
      err := 0;
    }

    /** The case of the current level in activate's switch, above PROBED. */
    method Do(k: Kernel) returns (err: int)
      requires Shaped() && PROBED < level < BLUENOC_ACTIVE
      modifies this`trace, this`level, this`msix, this`mapped
      ensures Shaped() && err == old(if StepFails(level, k, false) then ErrorAt(level) else 0)
      ensures if err != 0 then level == old(level) && trace == old(trace)
              else level == old(level) + 1 && trace == old(trace) + Takes(Rung(level, msix))
      ensures if err == 0 && level == MSI_ENABLED then msix == !k.msi else msix == old(msix)
    {
      err := 0;
      if level == BOARD_NUM_ASSIGNED { if !k.enable { return -EFAULT; } Rise([Device]); }
      else if level == PCI_DEV_ENABLED { if !k.request { return -EBUSY; } Rise([Regions]); }
      else if level == BARS_ALLOCATED {
        mapped := k.mapped;
        if !mapped { return -EFAULT; }
        Rise([Mapping]);
      }
      else if level == BARS_MAPPED { if k.magic != EXPECTED_MAGIC { return -EINVAL; } Rise([]); }
      else if level == MAGIC_MATCH { if !k.mask { return -EIO; } Rise([]); }
      else if level == DMA_MASK_SET { err := EnableMessages(k); }
      else { err := DoLast(k); }
    }

    method DoLast(k: Kernel) returns (err: int)
      requires Shaped() && MSI_ENABLED <= level < BLUENOC_ACTIVE
      modifies this`trace, this`level
      ensures Shaped() && err == old(if StepFails(level, k, false) then ErrorAt(level) else 0)
      ensures if err != 0 then level == old(level) && trace == old(trace)
              else level == old(level) + 1 && trace == old(trace) + Takes(Rung(level, msix))
    {
      err := 0;
      if level == MSI_ENABLED { if !k.irq { return -EBUSY; } Rise([Handler]); }
      else if level == IRQ_ASSIGNED { Rise(if msix then [Unmasked] else []); }
      else if level == MSIX_INITIALIZED { Rise([Master]); }
      else { Rise([Network]); }
    }

    /** Fall through the cases above PROBED until one fails. */
    method Ascend(k: Kernel) returns (err: int)
      requires Shaped() && PROBED < level
      modifies this`trace, this`level, this`msix, this`mapped
      ensures Shaped() && level == old(Reached(level, k, false))
      ensures err == if level == BLUENOC_ACTIVE then 0 else ErrorAt(level)
      ensures trace == old(trace) + Climb(old(level), level, msix)
      ensures if old(level) < MSI_ENABLED <= level then msix == !k.msi else msix == old(msix)
    {
      ghost var climbed := [];
      while level < BLUENOC_ACTIVE
        invariant Shaped() && old(level) <= level && Reached(level, k, false) == old(Reached(level, k, false))
        invariant climbed == Climb(old(level), level, msix) && trace == old(trace) + climbed
        invariant if old(level) < MSI_ENABLED <= level then msix == !k.msi else msix == old(msix)
        decreases BLUENOC_ACTIVE - level
      {
        ghost var rung;
        err, rung := Pass(k);
        if err != 0 { return; }
        Regroup(old(trace), climbed, rung);
        ClimbStep(old(level), level - 1, if level == MSI_ENABLED then old(msix) else msix, msix);
        climbed := climbed + rung;
      }
      err := 0;
    }

    method Pass(k: Kernel) returns (err: int, ghost rung: seq<Event>)
      requires Shaped() && PROBED < level < BLUENOC_ACTIVE
      modifies this`trace, this`level, this`msix, this`mapped
      ensures Shaped() && trace == old(trace) + rung
      ensures if err != 0 then level == old(level) == Reached(level, k, false) && err == ErrorAt(level) && rung == []
              else level == old(level) + 1 && rung == Takes(Rung(level, msix))
                   && Reached(level, k, false) == old(Reached(level, k, false))
      ensures if err == 0 && level == MSI_ENABLED then msix == !k.msi else msix == old(msix)
    {
      err := Do(k);
      if err == 0 {
        rung := Takes(Rung(level, msix));
      } else {
        rung := [];
        assert trace + [] == trace;
      }
    }

    /** Climb from the level of an assigned board number or above; a failing step makes it fall. */
    method Ladder(k: Kernel) returns (err: int)
      requires Valid() && PROBED < level
      modifies this`trace, this`level, this`msix, this`mapped
      ensures Valid()
      ensures var top := old(Reached(level, k, false));
              if top == BLUENOC_ACTIVE
              then err == 0 && level == top && trace == old(trace) + Climb(old(level), top, msix)
              else && err == ErrorAt(top) && level == Rest(top)
                   && trace == old(trace) + Climb(old(level), top, msix) + Fall(top, msix)
      ensures if old(level) < MSI_ENABLED <= old(Reached(level, k, false)) then msix == !k.msi else msix == old(msix)
    {
      ghost var start, kind, before := level, msix, trace;
      err := Ascend(k);
      if start < MSI_ENABLED { HeldIgnoresMsix(start, kind, msix); }
      ReplayClimb(before, start, level, msix);
      if err != 0 { Deactivate(); }
    }

    /** From PROBED: without a free number nothing happens; otherwise the rest of the ladder follows. */
    method Begin(k: Kernel, list: seq<Board>) returns (err: int)
      requires Valid() && level == PROBED
      modifies this
      ensures Valid()
      ensures var top := old(Reached(PROBED, k, Full(list)));
              if top == BLUENOC_ACTIVE
              then err == 0 && level == top && trace == old(trace) + Climb(PROBED, top, msix)
              else && err == ErrorAt(top) && level == Rest(top)
                   && trace == old(trace) + Climb(PROBED, top, msix) + Fall(top, msix)
      ensures if old(Reached(PROBED, k, Full(list))) >= MSI_ENABLED then msix == !k.msi else msix == old(msix)
      ensures if level != PROBED then var n := number; n <= NUM_BOARDS && old(SmallestFree(n, list))
              else number == old(number)
    {
      ReachedFrom(PROBED, k, Full(list));
      err := AssignNumber(list);
      if err != 0 {
        Deactivate();
        assert trace + [] + [] == trace;
        return;
      }
      ghost var before, kind := trace, msix;
      err := Ladder(k);
      FirstRung(kind, msix);
      ClimbJoins(old(trace), PROBED, BOARD_NUM_ASSIGNED, Reached(BOARD_NUM_ASSIGNED, k, false), msix);
    }

    /** Climb from the current level, falling through to the higher ones. If a step fails, everything
        acquired so far is released again, most recent first, and only the board number can remain. */
    method Activate(k: Kernel, list: seq<Board>) returns (err: int)
      requires Valid()
      modifies this
      ensures Valid()
      ensures var top := old(Reached(level, k, Full(list)));
              if top == BLUENOC_ACTIVE
              then err == 0 && level == top && trace == old(trace) + Climb(old(level), top, msix)
              else && err == ErrorAt(top) && level == Rest(top)
                   && trace == old(trace) + Climb(old(level), top, msix) + Fall(top, msix)
      ensures if old(level) < MSI_ENABLED <= old(Reached(level, k, Full(list))) then msix == !k.msi
              else msix == old(msix)
      ensures if old(level) == PROBED && level != PROBED
              then var n := number; n <= NUM_BOARDS && old(SmallestFree(n, list)) else number == old(number)
    {
      ReachedFrom(level, k, Full(list));
      if level == PROBED {
        err := Begin(k, list);
      } else {
        err := Ladder(k);
      }
    }
  }

  lemma {:induction false} FirstRung(a: bool, b: bool)
    ensures Climb(PROBED, BOARD_NUM_ASSIGNED, b) == Takes(Rung(BOARD_NUM_ASSIGNED, a))
  {
    assert Climb(PROBED, PROBED, b) == [];
    assert Climb(PROBED, BOARD_NUM_ASSIGNED, b) == [] + Takes(Rung(BOARD_NUM_ASSIGNED, b));
  }

  lemma {:induction false} FallStep(trace: seq<Event>, fallen: seq<Event>, at: nat, msix: bool)
    requires at > BOARD_NUM_ASSIGNED
    ensures fallen + Gives(Rung(at, msix)) + Fall(at - 1, msix) == fallen + Fall(at, msix)
    ensures trace + fallen + Gives(Rung(at, msix)) == trace + (fallen + Gives(Rung(at, msix)))
  {}

  /** Whether the numbers are used up only matters to a board that has none. */
  lemma {:induction false} ReachedFrom(level: nat, k: Kernel, full: bool)
    requires level <= BLUENOC_ACTIVE
    ensures level > PROBED ==> Reached(level, k, full) == Reached(level, k, false)
    ensures level == PROBED ==>
              Reached(level, k, full) == if full then PROBED else Reached(BOARD_NUM_ASSIGNED, k, false)
    decreases BLUENOC_ACTIVE - level
  {
    if level < BLUENOC_ACTIVE { ReachedFrom(level + 1, k, full); }
  }

  lemma {:induction false} ClimbIgnoresMsix(low: nat, high: nat, a: bool, b: bool)
    requires low <= high < MSI_ENABLED
    ensures Climb(low, high, a) == Climb(low, high, b)
    decreases high
  {
    if low < high { ClimbIgnoresMsix(low, high - 1, a, b); }
  }

  lemma {:induction false} ClimbStep(low: nat, at: nat, a: bool, b: bool)
    requires low <= at && (at < MSI_ENABLED || a == b)
    ensures Climb(low, at + 1, b) == Climb(low, at, a) + Takes(Rung(at + 1, b))
  {
    if at < MSI_ENABLED { ClimbIgnoresMsix(low, at, a, b); }
  }

  lemma {:induction false} ClimbJoins(trace: seq<Event>, low: nat, mid: nat, high: nat, msix: bool)
    requires low <= mid <= high
    ensures trace + Climb(low, mid, msix) + Climb(mid, high, msix) == trace + Climb(low, high, msix)
    decreases high
  {
    if mid < high {
      ClimbJoins(trace, low, mid, high - 1, msix);
      Regroup(trace + Climb(low, mid, msix), Climb(mid, high - 1, msix), Takes(Rung(high, msix)));
      Regroup(trace, Climb(low, high - 1, msix), Takes(Rung(high, msix)));
    } else {
      assert trace + Climb(low, mid, msix) + [] == trace + Climb(low, mid, msix);
    }
  }

  // ---------------------------------------------------------------------
  // The driver's list of boards
  // ---------------------------------------------------------------------

  /** The middle of probe: activate a board already at the head of the list, then add its device. */
  method BringUp(board: Board, k: Kernel, cdev: bool, list: seq<Board>, ghost others: seq<Board>) returns (err: int)
    requires board.Valid() && board.level == PROBED && board !in others && list == [board] + others
    modifies board
    ensures board.Valid()
    ensures err == 0 <==> !old(Full(others)) && Reached(BOARD_NUM_ASSIGNED, k, false) == BLUENOC_ACTIVE && cdev
    ensures err <= 0 && if err == 0 then board.level == BLUENOC_ACTIVE else board.level <= BOARD_NUM_ASSIGNED
    ensures err == 0 ==> var n := board.number; old(SmallestFree(n, others))
  {
    NewIsNumberless(board, others);
    ReachedFrom(PROBED, k, Full(others));
    err := board.Activate(k, list);
    if err >= 0 && !cdev {
      board.Deactivate();
      err := -EFAULT;
    }
  }

  class Driver {
    /** board_list, head first. */
    var boards: seq<Board>

    constructor ()
      ensures Valid() && boards == []
    {
      boards := [];
    }

    /** Every board in the list is in order, has a number of its own from 1 to 16, and is either fully
        active or holds nothing but that number. */
    ghost predicate Valid()
      reads this, boards
    {
      && (forall b :: b in boards ==> b.Valid() && (b.level == BOARD_NUM_ASSIGNED || b.level == BLUENOC_ACTIVE))
      && (forall i, j :: 0 <= i < j < |boards| ==> boards[i] != boards[j] && boards[i].number != boards[j].number)
    }

    /** A new board is put at the head of the list and activated; if that or the character device
        fails, it is taken off again and holds nothing but, possibly, a number that goes with it. */
    method Probe(k: Kernel, cdev: bool) returns (err: int, board: Board)
      requires Valid()
      modifies this
      ensures Valid() && fresh(board) && board.Valid()
      ensures err == 0 <==> !old(Full(boards)) && AllGranted(k) && cdev
      ensures if err == 0 then boards == [board] + old(boards) && board.level == BLUENOC_ACTIVE
              else boards == old(boards) && board.level <= BOARD_NUM_ASSIGNED
      ensures err == 0 ==> var n := board.number; old(SmallestFree(n, boards))
    {
      ActiveIffGranted(k);
      board := new Board();
      ghost var others := boards;
      boards := [board] + boards;
      err := BringUp(board, k, cdev, boards, others);
      if err < 0 { boards := boards[1..]; }
    }

    /** Remove a board: it is deactivated and taken off the list, and the others keep their numbers. */
    method Remove(i: nat)
      requires Valid() && i < |boards|
      modifies this, boards[i]
      ensures Valid() && boards == old(boards[..i] + boards[i + 1..])
      ensures old(boards)[i].Valid() && old(boards)[i].level == BOARD_NUM_ASSIGNED
    {
      boards[i].Deactivate();
      boards := boards[..i] + boards[i + 1..];
    }

    /** The ioctl that deactivates a board: it holds only its number afterwards. */
    method Deactivate(i: nat)
      requires Valid() && i < |boards|
      modifies boards[i]
      ensures Valid() && boards[i].number == old(boards[i].number) && boards[i].level == BOARD_NUM_ASSIGNED
    {
      boards[i].Deactivate();
    }

    /** The ioctl that activates it again: it keeps its number whatever the kernel answers, and an
        active board stays as it is. */
    method Reactivate(i: nat, k: Kernel)
      requires Valid() && i < |boards|
      modifies boards[i]
      ensures Valid() && boards[i].number == old(boards[i].number)
      ensures boards[i].level == BLUENOC_ACTIVE <==>
                old(boards[i].level) == BLUENOC_ACTIVE || AllGranted(k)
    {
      ActiveIffGranted(k);
      ReachedFrom(boards[i].level, k, Full(boards));
      var err := boards[i].Activate(k, boards);
    }
  }

  lemma {:induction false} NewIsNumberless(board: Board, list: seq<Board>)
    requires board.number == UNASSIGNED
    ensures Full([board] + list) <==> Full(list)
    ensures forall n :: 1 <= n && SmallestFree(n, [board] + list) ==> SmallestFree(n, list)
  {
    forall n | 1 <= n ensures Used(n, [board] + list) <==> Used(n, list) {
      if Used(n, list) {
        var b :| b in list && b.number == n;
        assert b in [board] + list;
      }
    }
  }
}
