// A transfer of the WinDriver kernel module, served round by round through a kernel buffer
// (wdusb_linux.c, usb_transfer_single and OS_transfer).
module UsbTransfer {
  import opened Arith
  import opened Common
  import opened IsoPackets

  const EOVERFLOW := 75

  datatype Pipe = Pipe(kind: Kind, size: nat, room: nat, isRead: bool, fullOnly: bool)

  predicate Proper(p: Pipe) { p.room > 0 && (p.kind == Isochronous ==> p.size > 0) }

  /** What the bus does with one packet of an isochronous round: its data and its error, if any. */
  datatype Packet = Packet(data: seq<Byte>, status: int)

  /** What the bus does with one round: its status, the data (of an isochronous round, the packets), and
      whether there is time, a device and a transfer left to go on with. Of a write only lengths matter. */
  datatype Report = Report(status: int, data: seq<Byte>, packets: seq<Packet>, goOn: bool)

  // ---------------------------------------------------------------------
  // One isochronous round
  // ---------------------------------------------------------------------

  function PacketAt(packets: seq<Packet>, i: nat): Packet {
    if i < |packets| then packets[i] else Packet([], 0)
  }

  /** A packet never takes more than its length. */
  function Taken(f: Frame, packet: Packet): seq<Byte> { packet.data[..Min(|packet.data|, f.length)] }

  function Filled(f: Frame, packet: Packet): Frame { f.(actual := |Taken(f, packet)|, status := packet.status) }

  /** The data of the first n packets, the bad ones left out. */
  function Arrived(bytes: nat, size: nat, packets: seq<Packet>, n: nat): seq<Byte>
    requires size > 0
  {
    if n == 0 then []
    else
      var packet := PacketAt(packets, n - 1);
      Arrived(bytes, size, packets, n - 1)
      + if packet.status == 0 then packet.data[..Min(|packet.data|, LengthAt(bytes, size, n - 1))] else []
  }

  /** All that arrives in a round of so many bytes. */
  function ArrivedInRound(bytes: nat, size: nat, packets: seq<Packet>): seq<Byte>
    requires size > 0
  {
    Arrived(bytes, size, packets, Packets(bytes, size))
  }

  /** The frame descriptors of a round after the host controller has filled them in. */
  ghost predicate Reported(frames: seq<Frame>, bytes: nat, size: nat, packets: seq<Packet>)
    requires size > 0
  {
    && |frames| == Packets(bytes, size)
    && forall i :: 0 <= i < |frames| ==>
                     frames[i] == Filled(Frame(Times(size, i), LengthAt(bytes, size, i), 0, 0), PacketAt(packets, i))
  }

  lemma {:induction false} ReportedPacked(frames: seq<Frame>, bytes: nat, size: nat, packets: seq<Packet>)
    requires size > 0 && Reported(frames, bytes, size, packets)
    ensures Packed(frames, bytes) && Within(frames) && Inside(frames, bytes)
  {
    StartsAt(frames, bytes, size);
    forall i | 0 <= i < |frames| ensures frames[i].offset + frames[i].length <= bytes {
      StartBound(frames, bytes, i + 1);
      assert frames[i].length == Start(frames, bytes, i + 1) - Start(frames, bytes, i);
    }
  }

  lemma {:induction false} TotalIsArrived(frames: seq<Frame>, bytes: nat, size: nat, packets: seq<Packet>, n: nat)
    requires size > 0 && Reported(frames, bytes, size, packets) && n <= |frames|
    ensures Total(frames[..n]) == |Arrived(bytes, size, packets, n)|
  {
    if n > 0 {
      TotalIsArrived(frames, bytes, size, packets, n - 1);
      assert frames[..n][..n - 1] == frames[..n - 1];
    }
  }

  /** The buffer holds the data of every packet where its frame says. */
  ghost predicate Landed(frames: seq<Frame>, data: seq<Byte>, packets: seq<Packet>)
    requires Inside(frames, |data|)
  {
    forall i :: 0 <= i < |frames| ==>
                  data[frames[i].offset..frames[i].offset + frames[i].actual] == Taken(frames[i], PacketAt(packets, i))
  }

  lemma {:induction false} DeliveredIsArrived(frames: seq<Frame>, bytes: nat, size: nat, packets: seq<Packet>,
                                              data: seq<Byte>, n: nat)
    requires size > 0 && Reported(frames, bytes, size, packets) && n <= |frames|
    requires Inside(frames, |data|) && Landed(frames, data, packets)
    ensures Delivered(frames[..n], data) == Arrived(bytes, size, packets, n)
  {
    if n > 0 {
      DeliveredIsArrived(frames, bytes, size, packets, data, n - 1);
      assert frames[..n][..n - 1] == frames[..n - 1];
    }
  }

  /** The packets before n: descriptors filled in and, for a read, the data in place. */
  ghost predicate Handled(laid: seq<Frame>, now: seq<Frame>, data: seq<Byte>, packets: seq<Packet>, n: nat, isRead: bool) {
    && |now| == |laid| && n <= |now|
    && (forall k :: n <= k < |now| ==> now[k] == laid[k])
    && (forall k :: 0 <= k < n ==> now[k] == Filled(laid[k], PacketAt(packets, k)))
    && Inside(now[..n], |data|)
    && (isRead ==> Landed(now[..n], data, packets))
  }

  /** Handling one more packet leaves the data of the ones before it alone. */
  lemma {:induction false} HandledNext(laid: seq<Frame>, now: seq<Frame>, now': seq<Frame>, data: seq<Byte>, data': seq<Byte>,
                                       packets: seq<Packet>, n: nat, isRead: bool, bytes: nat)
    requires Handled(laid, now, data, packets, n, isRead) && n < |laid| && Packed(laid, bytes)
    requires laid[n].offset + laid[n].length <= bytes <= |data| == |data'|
    requires now' == now[n := Filled(laid[n], PacketAt(packets, n))]
    requires isRead ==> data' == Put(data, laid[n].offset, Taken(laid[n], PacketAt(packets, n)))
    ensures Handled(laid, now', data', packets, n + 1, isRead)
  {
    forall k | 0 <= k < n + 1
      ensures now'[k].offset + now'[k].actual <= |data'|
      ensures isRead ==>
                data'[now'[k].offset..now'[k].offset + now'[k].actual] == Taken(now'[k], PacketAt(packets, k))
    {
      if k < n {
        assert now[..n][k] == now[k] == now'[k];
        Disjoint(laid, bytes, k, n);
        if isRead { PutKeeps(data, laid[n].offset, Taken(laid[n], PacketAt(packets, n)), now[k].offset, now[k].actual); }
      } else if isRead {
        PutHolds(data, laid[n].offset, Taken(laid[n], PacketAt(packets, n)));
      }
    }
  }

  lemma {:induction false} Disjoint(laid: seq<Frame>, bytes: nat, k: nat, n: nat)
    requires Packed(laid, bytes) && k < n < |laid|
    ensures laid[k].offset + laid[k].length <= laid[n].offset
    decreases n - k
  {
    assert laid[k].length == Start(laid, bytes, k + 1) - Start(laid, bytes, k);
    if k + 1 < n { Disjoint(laid, bytes, k + 1, n); }
  }

  /** The bytes put into place at an offset. */
  function Put(data: seq<Byte>, at: nat, bytes: seq<Byte>): (r: seq<Byte>)
    requires at + |bytes| <= |data|
    ensures |r| == |data|
  {
    data[..at] + bytes + data[at + |bytes|..]
  }

  lemma {:induction false} PutHolds(data: seq<Byte>, at: nat, bytes: seq<Byte>)
    requires at + |bytes| <= |data|
    ensures Put(data, at, bytes)[at..at + |bytes|] == bytes
  {}

  lemma {:induction false} PutKeeps(data: seq<Byte>, at: nat, bytes: seq<Byte>, from: nat, n: nat)
    requires at + |bytes| <= |data| && from + n <= at
    ensures Put(data, at, bytes)[from..from + n] == data[from..from + n]
  {}

  method PutBytes(buffer: array<Byte>, at: nat, bytes: seq<Byte>)
    requires at + |bytes| <= buffer.Length
    modifies buffer
    ensures buffer[..] == Put(old(buffer[..]), at, bytes)
  {
    forall j | 0 <= j < |bytes| { buffer[at + j] := bytes[j]; }
    assert buffer[..] == Put(old(buffer[..]), at, bytes);
  }

  /** The host controller: data lands where the frame descriptors say, and they tell how much. */
  method HostAnswers(frames: array<Frame>, buffer: array<Byte>, isRead: bool, packets: seq<Packet>, ghost bytes: nat)
    requires frames as object != buffer as object && Packed(frames[..], bytes) && bytes <= buffer.Length
    modifies frames, buffer
    ensures Handled(old(frames[..]), frames[..], buffer[..], packets, frames.Length, isRead)
    ensures !isRead ==> buffer[..] == old(buffer[..])
  {
    ghost var laid, data := frames[..], buffer[..];
    var i := 0;
    while i < frames.Length
      invariant 0 <= i <= frames.Length
      invariant Handled(laid, frames[..], buffer[..], packets, i, isRead)
      invariant !isRead ==> buffer[..] == data
    {
      ghost var now, before := frames[..], buffer[..];
      var f := frames[i];
      assert f == now[i] == laid[i];
      FitsBehind(laid, bytes, i);
      if isRead { PutBytes(buffer, f.offset, Taken(f, PacketAt(packets, i))); }
      frames[i] := Filled(f, PacketAt(packets, i));
      HandledNext(laid, now, frames[..], before, buffer[..], packets, i, isRead, bytes);
      i := i + 1;
    }
  }

  lemma {:induction false} FitsBehind(laid: seq<Frame>, bytes: nat, n: nat)
    requires Packed(laid, bytes) && n < |laid|
    ensures laid[n].offset + laid[n].length <= bytes
  {
    StartBound(laid, bytes, n + 1);
    assert laid[n].length == Start(laid, bytes, n + 1) - Start(laid, bytes, n);
  }

  lemma {:induction false} HandledIsReported(laid: seq<Frame>, now: seq<Frame>, data: seq<Byte>, packets: seq<Packet>,
                                             isRead: bool, bytes: nat, size: nat)
    requires size > 0 && |laid| == Packets(bytes, size) && Handled(laid, now, data, packets, |laid|, isRead)
    requires forall i :: 0 <= i < |laid| ==> laid[i] == Frame(Times(size, i), LengthAt(bytes, size, i), 0, 0)
    ensures Reported(now, bytes, size, packets) && Inside(now, |data|) && (isRead ==> Landed(now, data, packets))
  {
    assert now[..|now|] == now;
  }

  /** The isochronous case of usb_transfer_single: lay out the packets, let the bus work, and compact. */
  method IsoSingle(buffer: array<Byte>, isRead: bool, size: nat, single: nat, report: Report) returns (transferred: nat)
    requires size > 0 && single <= buffer.Length
    modifies buffer
    ensures report.status != 0 ==> transferred == 0
    ensures report.status == 0 ==> transferred == |ArrivedInRound(single, size, report.packets)| <= single
    ensures isRead && report.status == 0 ==> buffer[..transferred] == ArrivedInRound(single, size, report.packets)
    ensures !isRead ==> buffer[..] == old(buffer[..])
  {
    var frames := new Frame[Packets(single, size)](_ => Frame(0, 0, 0, 0));
    LayPackets(single, size, frames);
    ghost var laid := frames[..];
    HostAnswers(frames, buffer, isRead, report.packets, single);
    HandledIsReported(laid, frames[..], buffer[..], report.packets, isRead, single, size);
    ReportedPacked(frames[..], single, size, report.packets);
    ghost var fs, data := frames[..], buffer[..];
    var urb := new Urb(buffer, frames, true, isRead, report.status);
    urb.CommonCompletion(single);
    transferred := urb.actualLength;
    assert fs[..|fs|] == fs;
    TotalIsArrived(fs, single, size, report.packets, |fs|);
    if isRead {
      DeliveredIsArrived(fs, single, size, report.packets, data, |fs|);
    }
  }

  // ---------------------------------------------------------------------
  // One round
  // ---------------------------------------------------------------------

  /** What a round of so many bytes brings in, or takes. */
  function Answered(p: Pipe, single: nat, report: Report): seq<Byte>
    requires Proper(p)
  {
    if p.kind != Isochronous then report.data
    else if report.status == 0 then ArrivedInRound(single, p.size, report.packets)
    else []
  }

  /** usb_transfer_single, whose status is the one of the report. The device is given what the kernel's buffer holds
      when the URB is submitted. */
  method TransferSingle(p: Pipe, buffer: array<Byte>, single: nat, report: Report)
    returns (transferred: nat, ghost given: seq<Byte>)
    requires Proper(p) && single <= buffer.Length
    modifies buffer
    ensures transferred == |Answered(p, single, report)|
    ensures p.isRead ==> buffer[..Min(single, transferred)] == Answered(p, single, report)[..Min(single, transferred)]
    ensures !p.isRead ==> buffer[..] == old(buffer[..]) && given == old(buffer[..single])
  {
    given := buffer[..single];
    if p.kind == Isochronous {
      transferred := IsoSingle(buffer, p.isRead, p.size, single, report);
    } else {
      transferred := |report.data|;
      if p.isRead { PutBytes(buffer, 0, report.data[..Min(single, transferred)]); }
    }
  }

  /** One round of OS_transfer: what was asked for, and the bytes that moved. */
  datatype Round = Round(requested: nat, moved: seq<Byte>)

  function RoundOf(p: Pipe, left: seq<Byte>, report: Report): (r: Round)
    requires Proper(p) && left != []
    ensures 0 < r.requested <= p.room && |r.moved| <= r.requested <= |left|
    ensures p.kind == Isochronous ==> InPackets(r.requested, p.size)
  {
    var single := SingleLength(|left|, p.room, p.kind, p.size);
    var answered := Answered(p, single, report);
    var n := Min(single, |answered|);
    Round(single, if p.isRead then answered[..n] else left[..n])
  }

  /** USB_ISOCH_FULL_PACKETS_ONLY: the rest is less than a packet, and is not asked for. */
  predicate Withheld(p: Pipe, left: nat) {
    p.kind == Isochronous && Min(left, p.room) <= p.size && p.fullOnly && left < p.size
  }

  predicate Fatal(report: Report) { report.status != 0 && report.status != -EOVERFLOW }

  /** After this round there is no other: it was short, or nothing is left, or nothing can go on. */
  predicate Ends(p: Pipe, round: Round, left: nat, report: Report) {
    (p.kind != Isochronous && |round.moved| < round.requested) || left == 0 || !report.goOn
  }

  // ---------------------------------------------------------------------
  // Serving a caller's buffer
  // ---------------------------------------------------------------------

  datatype Outcome = Outcome(rc: int, rounds: seq<Round>)

  function After(rounds: seq<Round>, rest: Outcome): Outcome { Outcome(rest.rc, rounds + rest.rounds) }

  /** The rounds that serve what is left of a caller's buffer, while there are reports. */
  function Serve(p: Pipe, left: seq<Byte>, reports: seq<Report>): Outcome
    requires Proper(p) && left != []
    decreases |reports|
  {
    if reports == [] || Withheld(p, |left|) then Outcome(0, [])
    else if Fatal(reports[0]) then Outcome(reports[0].status, [])
    else
      var round := RoundOf(p, left, reports[0]);
      After([round], Onward(p, left, round, reports))
  }

  /** What follows a round. */
  function Onward(p: Pipe, left: seq<Byte>, round: Round, reports: seq<Report>): Outcome
    requires Proper(p) && reports != [] && |round.moved| <= |left|
    decreases |reports|, 0
  {
    var rest := left[|round.moved|..];
    if Ends(p, round, |rest|, reports[0]) then Outcome(0, []) else Serve(p, rest, reports[1..])
  }

  function Joined(rounds: seq<Round>): seq<Byte> {
    if rounds == [] then [] else Joined(rounds[..|rounds| - 1]) + rounds[|rounds| - 1].moved
  }

  lemma {:induction false} JoinedSnoc(rounds: seq<Round>, r: Round)
    ensures Joined(rounds + [r]) == Joined(rounds) + r.moved
  {
    assert (rounds + [r])[..|rounds|] == rounds;
  }

  /** A read has replaced the first bytes of the buffer by what came in; a write has sent its first bytes
      and left it alone. */
  predicate Served(now: seq<Byte>, was: seq<Byte>, done: seq<Byte>, isRead: bool) {
    && |done| <= |was|
    && if isRead then now == done + was[|done|..] else now == was && done == was[..|done|]
  }

  /** What is still to come behind so many bytes, if anything. */
  function Remaining(p: Pipe, was: seq<Byte>, reports: seq<Report>, k: nat, at: nat, going: bool, rc: int): Outcome
    requires Proper(p) && k <= |reports| && at <= |was| && (going ==> at < |was|)
  {
    if going then Serve(p, was[at..], reports[k..]) else Outcome(rc, [])
  }

  /** Where the loop stands: these rounds are done, and the rest of the transfer is still to come, or is over
      with the status rc. */
  ghost predicate Underway(p: Pipe, was: seq<Byte>, reports: seq<Report>, rounds: seq<Round>, k: nat, going: bool, rc: int)
    requires Proper(p) && was != []
  {
    var at := |Joined(rounds)|;
    && k <= |reports| && (if going then at < |was| && rc == 0 else at <= |was|)
    && Serve(p, was, reports) == After(rounds, Remaining(p, was, reports, k, at, going, rc))
  }

  lemma {:induction false} UnderwayAtStart(p: Pipe, was: seq<Byte>, reports: seq<Report>)
    requires Proper(p) && was != []
    ensures Underway(p, was, reports, [], 0, true, 0)
  {
    assert was[0..] == was && reports[0..] == reports;
    var o := Serve(p, was, reports);
    assert [] + o.rounds == o.rounds;
  }

  lemma {:induction false} UnderwayOver(p: Pipe, was: seq<Byte>, reports: seq<Report>, rounds: seq<Round>, k: nat,
                                        going: bool, rc: int)
    requires Proper(p) && was != [] && Underway(p, was, reports, rounds, k, going, rc) && (!going || k == |reports|)
    ensures Serve(p, was, reports) == Outcome(rc, rounds)
  {
    assert rounds + [] == rounds;
  }

  /** No further round is asked for, or the next one fails. */
  lemma {:induction false} UnderwayStops(p: Pipe, was: seq<Byte>, reports: seq<Report>, rounds: seq<Round>, k: nat)
    requires Proper(p) && was != [] && Underway(p, was, reports, rounds, k, true, 0) && k < |reports|
    requires Withheld(p, |was| - |Joined(rounds)|) || Fatal(reports[k])
    ensures Underway(p, was, reports, rounds, k + 1, false,
                     if Withheld(p, |was| - |Joined(rounds)|) then 0 else reports[k].status)
  {
    assert reports[k..][0] == reports[k];
  }

  lemma {:induction false} ServeOne(p: Pipe, was: seq<Byte>, reports: seq<Report>, k: nat, at: nat, round: Round)
    requires Proper(p) && k < |reports| && at < |was| && !Withheld(p, |was| - at) && !Fatal(reports[k])
    requires round == RoundOf(p, was[at..], reports[k])
    ensures at + |round.moved| <= |was|
    ensures Serve(p, was[at..], reports[k..])
         == After([round], Remaining(p, was, reports, k + 1, at + |round.moved|,
                                     !Ends(p, round, |was| - at - |round.moved|, reports[k]), 0))
  {
    assert was[at..][|round.moved|..] == was[at + |round.moved|..] && reports[k..][1..] == reports[k + 1..];
  }

  lemma {:induction false} AfterAfter(rounds: seq<Round>, round: Round, rest: Outcome)
    ensures After(rounds, After([round], rest)) == After(rounds + [round], rest)
  {
    Regroup(rounds, [round], rest.rounds);
  }

  /** One more round is served. */
  lemma {:induction false} UnderwayNext(p: Pipe, was: seq<Byte>, reports: seq<Report>, rounds: seq<Round>, k: nat, round: Round)
    requires Proper(p) && was != [] && k < |reports| && Underway(p, was, reports, rounds, k, true, 0)
    requires !Withheld(p, |was| - |Joined(rounds)|) && !Fatal(reports[k])
    requires round == RoundOf(p, was[|Joined(rounds)|..], reports[k])
    ensures Joined(rounds + [round]) == Joined(rounds) + round.moved
    ensures |Joined(rounds)| + |round.moved| <= |was|
    ensures Underway(p, was, reports, rounds + [round], k + 1,
                     !Ends(p, round, |was| - |Joined(rounds)| - |round.moved|, reports[k]), 0)
  {
    JoinedSnoc(rounds, round);
    ServeOne(p, was, reports, k, |Joined(rounds)|, round);
    AfterAfter(rounds, round, Remaining(p, was, reports, k + 1, |Joined(rounds)| + |round.moved|,
                                        !Ends(p, round, |was| - |Joined(rounds)| - |round.moved|, reports[k]), 0));
  }

  /** The n bytes that come next. */
  function Slice(data: seq<Byte>, at: nat, n: nat): seq<Byte> { if at + n <= |data| then data[at..at + n] else [] }

  /** What the device is given round by round in a write: the bytes that come next, as many as are asked for. */
  function Offered(was: seq<Byte>, rounds: seq<Round>): seq<seq<Byte>> {
    if rounds == [] then []
    else
      var front := rounds[..|rounds| - 1];
      Offered(was, front) + [Slice(was, |Joined(front)|, rounds[|rounds| - 1].requested)]
  }

  lemma {:induction false} OfferedSnoc(was: seq<Byte>, rounds: seq<Round>, round: Round)
    ensures Offered(was, rounds + [round]) == Offered(was, rounds) + [Slice(was, |Joined(rounds)|, round.requested)]
  {
    assert (rounds + [round])[..|rounds|] == rounds;
  }

  /** OS_transfer for a request that is not empty: status, rounds and count are the specified ones, and the
      caller's buffer starts with exactly what came in, in order, and is otherwise untouched; or the device
      was given its bytes in order, each round going on behind those it took. */
  method Transfer(p: Pipe, cur: array<Byte>, reports: seq<Report>)
    returns (rc: int, transferred: nat, ghost rounds: seq<Round>, ghost wire: seq<seq<Byte>>)
    requires Proper(p) && cur.Length > 0
    modifies cur
    ensures Outcome(rc, rounds) == Serve(p, old(cur[..]), reports)
    ensures transferred == |Joined(rounds)|
    ensures Served(cur[..], old(cur[..]), Joined(rounds), p.isRead)
    ensures !p.isRead ==> wire == Offered(old(cur[..]), rounds)
  {
    rc, transferred, rounds, wire := 0, 0, [], [];
    var buffer := new Byte[p.room](_ => 0);
    var k, going := 0, true;
    ghost var was := cur[..];
    UnderwayAtStart(p, was, reports);
    while going && k < |reports|
      invariant 0 <= k <= |reports| && transferred == |Joined(rounds)|
      invariant Underway(p, was, reports, rounds, k, going, rc)
      invariant Served(cur[..], was, Joined(rounds), p.isRead)
      invariant !p.isRead ==> wire == Offered(was, rounds)
    {
      rc, transferred, going, rounds, wire :=
        TakeRound(p, cur, buffer, transferred, reports[k], was, reports, rounds, k, wire);
      k := k + 1;
    }
    UnderwayOver(p, was, reports, rounds, k, going, rc);
  }

  /** The loop body: nothing is asked for if only part of a packet is left and that is not wanted; an error
      ends the transfer, except that the device sent too much. */
  method TakeRound(p: Pipe, cur: array<Byte>, buffer: array<Byte>, at: nat, report: Report,
                   ghost was: seq<Byte>, ghost reports: seq<Report>, ghost rounds: seq<Round>, ghost k: nat,
                   ghost wire: seq<seq<Byte>>)
    returns (rc: int, transferred: nat, going: bool, ghost more: seq<Round>, ghost wire': seq<seq<Byte>>)
    requires Proper(p) && buffer.Length == p.room && buffer != cur && was != []
    requires at == |Joined(rounds)| && Served(cur[..], was, Joined(rounds), p.isRead)
    requires Underway(p, was, reports, rounds, k, true, 0) && k < |reports| && reports[k] == report
    modifies cur, buffer
    ensures transferred == |Joined(more)| && Served(cur[..], was, Joined(more), p.isRead)
    ensures Underway(p, was, reports, more, k + 1, going, rc)
    ensures !p.isRead && wire == Offered(was, rounds) ==> wire' == Offered(was, more)
  {
    if Withheld(p, cur.Length - at) {
      UnderwayStops(p, was, reports, rounds, k);
      return 0, at, false, rounds, wire;
    }
    if Fatal(report) {
      UnderwayStops(p, was, reports, rounds, k);
      return report.status, at, false, rounds, wire;
    }
    rc := 0;
    ghost var round, given;
    transferred, going, round, given := ServeRound(p, cur, buffer, at, report, was, reports, rounds, k);
    more, wire' := rounds + [round], wire + [given];
    OfferedSnoc(was, rounds, round);
  }

  /** A round that is asked for and does not fail. */
  method ServeRound(p: Pipe, cur: array<Byte>, buffer: array<Byte>, at: nat, report: Report,
                    ghost was: seq<Byte>, ghost reports: seq<Report>, ghost rounds: seq<Round>, ghost k: nat)
    returns (transferred: nat, going: bool, ghost round: Round, ghost given: seq<Byte>)
    requires Proper(p) && buffer.Length == p.room && buffer != cur && was != []
    requires at == |Joined(rounds)| && Served(cur[..], was, Joined(rounds), p.isRead)
    requires Underway(p, was, reports, rounds, k, true, 0) && k < |reports| && reports[k] == report
    requires !Withheld(p, |was| - at) && !Fatal(report)
    modifies cur, buffer
    ensures transferred == |Joined(rounds + [round])|
    ensures Served(cur[..], was, Joined(rounds + [round]), p.isRead)
    ensures Underway(p, was, reports, rounds + [round], k + 1, going, 0)
    ensures !p.isRead ==> given == Slice(was, at, round.requested)
  {
    var single := SingleLength(cur.Length - at, p.room, p.kind, p.size);
    var n;
    n, round, given := MoveRound(p, cur, buffer, at, single, report, was, Joined(rounds));
    transferred := at + n;
    UnderwayNext(p, was, reports, rounds, k, round);
    going := (p.kind == Isochronous || n >= single) && transferred < cur.Length && report.goOn;
  }

  /** The bytes of one round, between the caller's buffer and the device, through the kernel's buffer. */
  method MoveRound(p: Pipe, cur: array<Byte>, buffer: array<Byte>, at: nat, single: nat, report: Report,
                   ghost was: seq<Byte>, ghost done: seq<Byte>)
    returns (n: nat, ghost round: Round, ghost given: seq<Byte>)
    requires Proper(p) && buffer.Length == p.room && buffer != cur
    requires at == |done| < cur.Length && Served(cur[..], was, done, p.isRead)
    requires single == SingleLength(cur.Length - at, p.room, p.kind, p.size)
    modifies cur, buffer
    ensures round == RoundOf(p, was[at..], report) && n == |round.moved| && single == round.requested
    ensures Served(cur[..], was, done + round.moved, p.isRead)
    ensures !p.isRead ==> given == Slice(was, at, single)
  {
    round := RoundOf(p, was[at..], report);
    if !p.isRead { PutBytes(buffer, 0, cur[at..at + single]); }
    n, given := TransferSingle(p, buffer, single, report);
    n := Min(single, n);
    if p.isRead {
      PutBytes(cur, at, buffer[..n]);
      ServedMore(was, done, buffer[..n]);
    } else {
      assert was[..at + n] == done + was[at..][..n];
    }
  }

  lemma {:induction false} ServedMore(was: seq<Byte>, done: seq<Byte>, more: seq<Byte>)
    requires |done| + |more| <= |was|
    ensures Put(done + was[|done|..], |done|, more) == (done + more) + was[|done + more|..]
  {
    var now := done + was[|done|..];
    assert now[..|done|] == done;
    assert now[|done| + |more|..] == was[|done| + |more|..];
  }

  // ---------------------------------------------------------------------
  // What the rounds are
  // ---------------------------------------------------------------------

  lemma {:induction false} JoinedFront(rounds: seq<Round>)
    requires rounds != []
    ensures Joined(rounds) == rounds[0].moved + Joined(rounds[1..])
  {
    if |rounds| == 1 {
      assert rounds[..0] == [] && rounds[1..] == [];
    } else {
      var front, last := rounds[..|rounds| - 1], rounds[|rounds| - 1];
      JoinedFront(front);
      assert front[1..] == rounds[1..][..|rounds| - 2] && rounds[1..][|rounds| - 2] == last;
      Regroup(rounds[0].moved, Joined(front[1..]), last.moved);
    }
  }

  /** The first k rounds, and all but the first of them. */
  lemma {:induction false} Behind(rounds: seq<Round>, k: nat)
    requires 0 < k <= |rounds|
    ensures Joined(rounds[..k]) == rounds[0].moved + Joined(rounds[1..][..k - 1])
  {
    JoinedFront(rounds[..k]);
    assert rounds[..k][1..] == rounds[1..][..k - 1];
  }

  lemma {:induction false} ServeUnfolds(p: Pipe, left: seq<Byte>, reports: seq<Report>)
    requires Proper(p) && left != [] && Serve(p, left, reports).rounds != []
    ensures reports != [] && !Withheld(p, |left|) && !Fatal(reports[0])
    ensures var o, round := Serve(p, left, reports), RoundOf(p, left, reports[0]);
            var rest := left[|round.moved|..];
            && o.rounds[0] == round
            && Outcome(o.rc, o.rounds[1..])
               == if Ends(p, round, |rest|, reports[0]) then Outcome(0, []) else Serve(p, rest, reports[1..])
  {
    var round := RoundOf(p, left, reports[0]);
    var rest := Onward(p, left, round, reports).rounds;
    assert ([round] + rest)[1..] == rest;
  }

  /** Round k asks for as much of the rest as fits, or of an isochronous pipe as many whole packets of it as
      fit, and moves what report k brings in, but no more than that. */
  ghost predicate Asks(p: Pipe, rest: seq<Byte>, round: Round, report: Report)
    requires Proper(p)
  {
    var n := if |rest| <= p.room then |rest| else p.room;
    && (if p.kind != Isochronous || n <= p.size then round.requested == n
        else round.requested <= n < round.requested + p.size && Remainder(round.requested, p.size) == 0)
    && |round.moved| <= round.requested
    && (if p.kind != Isochronous then |round.moved| == |report.data| || |round.moved| == round.requested < |report.data|
        else if report.status != 0 then round.moved == []
        else |round.moved| == |ArrivedInRound(round.requested, p.size, report.packets)|)
    && (if !p.isRead then round.moved <= rest
        else if p.kind != Isochronous then round.moved <= report.data
        else report.status == 0 ==> round.moved == ArrivedInRound(round.requested, p.size, report.packets))
  }

  /** Round k answers report k for the rest that the rounds before it left over. It is only asked for if there
      is a rest, not less than a packet that is unwanted, and if the bus does not fail, except by sending too
      much. Another one follows only if something is left, it can go on, and, on a pipe that is not
      isochronous, the round was not short. */
  ghost predicate Follows(p: Pipe, left: seq<Byte>, reports: seq<Report>, rounds: seq<Round>, k: nat)
    requires Proper(p) && k < |rounds|
  {
    var gone := |Joined(rounds[..k])|;
    && k < |reports| && (reports[k].status == 0 || reports[k].status == -75)
    && gone < |left| && !(p.kind == Isochronous && p.fullOnly && |left| - gone < p.size)
    && Asks(p, left[gone..], rounds[k], reports[k])
    && (k < |rounds| - 1 ==>
          && (p.kind == Isochronous || |rounds[k].moved| == rounds[k].requested)
          && gone + |rounds[k].moved| < |left| && reports[k].goOn)
  }

  /** No round brings in more than it asked for. */
  lemma {:induction false} ArrivedBound(bytes: nat, size: nat, packets: seq<Packet>, n: nat)
    requires size > 0 && n <= Packets(bytes, size)
    ensures |Arrived(bytes, size, packets, n)| <= (if n < Packets(bytes, size) then Times(size, n) else bytes)
  {
    if n > 0 {
      ArrivedBound(bytes, size, packets, n - 1);
      LengthSum(bytes, size, n - 1);
    }
  }

  /** Where packet n ends. */
  lemma {:induction false} LengthSum(bytes: nat, size: nat, n: nat)
    requires size > 0 && n < Packets(bytes, size)
    ensures Times(size, n) + LengthAt(bytes, size, n)
         == if n + 1 < Packets(bytes, size) then Times(size, n + 1) else bytes
  {
    PacketsCover(bytes, size);
    TimesNext(size, n);
  }

  lemma {:induction false} RoundAsks(p: Pipe, rest: seq<Byte>, report: Report)
    requires Proper(p) && rest != []
    ensures Asks(p, rest, RoundOf(p, rest, report), report)
  {
    var round := RoundOf(p, rest, report);
    AsksForMost(|rest|, p.room, p.kind, p.size);
    if p.kind == Isochronous {
      ArrivedBound(round.requested, p.size, report.packets, Packets(round.requested, p.size));
    }
  }

  lemma {:induction false} FollowsLater(p: Pipe, left: seq<Byte>, reports: seq<Report>, rounds: seq<Round>, k: nat)
    requires Proper(p) && reports != [] && 0 < k < |rounds| && |rounds[0].moved| <= |left|
    requires Follows(p, left[|rounds[0].moved|..], reports[1..], rounds[1..], k - 1)
    ensures Follows(p, left, reports, rounds, k)
  {
    var m := |rounds[0].moved|;
    Behind(rounds, k);
    var gone := |Joined(rounds[1..][..k - 1])|;
    assert left[m..][gone..] == left[m + gone..];
    assert reports[1..][k - 1] == reports[k] && rounds[1..][k - 1] == rounds[k];
  }

  /** Every round of a transfer follows from the ones before it. */
  lemma {:induction false} RoundFollows(p: Pipe, left: seq<Byte>, reports: seq<Report>, k: nat)
    requires Proper(p) && left != [] && k < |Serve(p, left, reports).rounds|
    ensures Follows(p, left, reports, Serve(p, left, reports).rounds, k)
    decreases |reports|
  {
    var rounds := Serve(p, left, reports).rounds;
    ServeUnfolds(p, left, reports);
    if k == 0 {
      RoundAsks(p, left, reports[0]);
      assert rounds[..0] == [] && left[0..] == left;
    } else {
      var rest := left[|rounds[0].moved|..];
      assert rounds[1..] == Serve(p, rest, reports[1..]).rounds;
      RoundFollows(p, rest, reports[1..], k - 1);
      FollowsLater(p, left, reports, rounds, k);
    }
  }

  /** How a transfer of so many bytes ends after its last round. */
  ghost predicate EndsAs(p: Pipe, bytes: nat, reports: seq<Report>, o: Outcome) {
    var n, rest := |o.rounds|, bytes - |Joined(o.rounds)|;
    && n <= |reports| && rest >= 0
    && if rest == 0 || (n > 0 && !reports[n - 1].goOn)
          || (n > 0 && p.kind != Isochronous && |o.rounds[n - 1].moved| < o.rounds[n - 1].requested)
       then n > 0 && o.rc == 0
       else if n == |reports| || (p.kind == Isochronous && p.fullOnly && rest < p.size) then o.rc == 0
       else reports[n].status != 0 && reports[n].status != -75 && o.rc == reports[n].status
  }

  lemma {:induction false} EndsAsLater(p: Pipe, bytes: nat, reports: seq<Report>, o: Outcome)
    requires reports != [] && o.rounds != [] && |o.rounds[0].moved| <= bytes
    requires var rest := bytes - |o.rounds[0].moved|;
             if Ends(p, o.rounds[0], rest, reports[0]) then o.rounds[1..] == [] && o.rc == 0
             else rest > 0 && EndsAs(p, rest, reports[1..], Outcome(o.rc, o.rounds[1..]))
    ensures EndsAs(p, bytes, reports, o)
  {
    JoinedFront(o.rounds);
  }

  /** Why there is no round after the last: it ended the transfer; or the run was cut there, or the rest was
      withheld, and all is well; or the next round failed, and its status is the outcome. */
  lemma {:induction false} TransferEnds(p: Pipe, left: seq<Byte>, reports: seq<Report>)
    requires Proper(p) && left != []
    ensures EndsAs(p, |left|, reports, Serve(p, left, reports))
    decreases |reports|
  {
    var o := Serve(p, left, reports);
    if o.rounds != [] {
      ServeUnfolds(p, left, reports);
      var rest := left[|o.rounds[0].moved|..];
      if !Ends(p, o.rounds[0], |rest|, reports[0]) { TransferEnds(p, rest, reports[1..]); }
      EndsAsLater(p, |left|, reports, o);
    }
  }

  /** A transfer that is not isochronous has no short round before its last, and an isochronous one asks
      for whole packets, or for no more than one. */
  lemma {:induction false} RoundsOrderly(p: Pipe, left: seq<Byte>, reports: seq<Report>, k: nat)
    requires Proper(p) && left != [] && k < |Serve(p, left, reports).rounds|
    ensures var rounds := Serve(p, left, reports).rounds;
            && |rounds[k].moved| <= rounds[k].requested <= p.room
            && (p.kind == Isochronous ==> InPackets(rounds[k].requested, p.size))
            && (p.kind != Isochronous && k < |rounds| - 1 ==> |rounds[k].moved| == rounds[k].requested)
  {
    RoundFollows(p, left, reports, k);
  }

  /** The good packets of all rounds, in order. */
  function AllArrived(p: Pipe, rounds: seq<Round>, reports: seq<Report>): seq<Byte>
    requires Proper(p) && p.kind == Isochronous && |rounds| <= |reports|
  {
    if rounds == [] then []
    else
      var k := |rounds| - 1;
      AllArrived(p, rounds[..k], reports)
      + if reports[k].status == 0 then ArrivedInRound(rounds[k].requested, p.size, reports[k].packets) else []
  }

  /** An isochronous read puts into the caller's buffer, round after round, the data of the packets that
      arrived without an error. */
  lemma {:induction false} IsochronousReadDelivers(p: Pipe, left: seq<Byte>, reports: seq<Report>, n: nat)
    requires Proper(p) && p.kind == Isochronous && p.isRead && left != [] && n <= |Serve(p, left, reports).rounds| <= |reports|
    ensures var rounds := Serve(p, left, reports).rounds;
            Joined(rounds[..n]) == AllArrived(p, rounds[..n], reports)
  {
    var rounds := Serve(p, left, reports).rounds;
    if n > 0 {
      IsochronousReadDelivers(p, left, reports, n - 1);
      RoundFollows(p, left, reports, n - 1);
      assert rounds[..n][..n - 1] == rounds[..n - 1];
      var single := rounds[n - 1].requested;
      ArrivedBound(single, p.size, reports[n - 1].packets, Packets(single, p.size));
      assert rounds[n - 1].moved == Answered(p, single, reports[n - 1]);
    }
  }
}
