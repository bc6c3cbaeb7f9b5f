// Isochronous USB transfers of the WinDriver kernel module: laying out the packets of a request,
// compacting what arrived in place, and the sizes of buffers and rounds (wdusb_linux.c, usb_transfer_single,
// usb_common_completion, try_allocate and OS_transfer).
module IsoPackets {
  import opened Arith
  import opened Common

  /** A packet of a request: where it lies, its size, how much of it arrived, and its error, if any. */
  datatype Frame = Frame(offset: nat, length: nat, actual: nat, status: int)

  // ---------------------------------------------------------------------
  // Layout
  // ---------------------------------------------------------------------

  function Packets(bytes: nat, size: nat): nat
    requires size > 0
  {
    Quotient(bytes + size - 1, size)
  }

  /** The packets before the last are full, and the last one takes the rest. */
  lemma {:induction false} PacketsCover(bytes: nat, size: nat)
    requires size > 0
    ensures var n := Packets(bytes, size);
            if Remainder(bytes, size) == 0 then Times(size, n) == bytes
            else n > 0 && Times(size, n - 1) + Remainder(bytes, size) == bytes
  {
    Division(bytes, size);
    var q, r := Quotient(bytes, size), Remainder(bytes, size);
    TimesNext(size, q);
    if r == 0 {
      QuotientUnique(bytes + size - 1, size, q, size - 1);
    } else {
      QuotientUnique(bytes + size - 1, size, q + 1, r - 1);
    }
  }

  /** How long packet i is. */
  function LengthAt(bytes: nat, size: nat, i: nat): nat
    requires size > 0
  {
    if i == Packets(bytes, size) - 1 && Remainder(bytes, size) != 0 then Remainder(bytes, size) else size
  }

  /** Where packet i starts; the request ends where one more packet would start. */
  function Start(frames: seq<Frame>, bytes: nat, i: nat): nat {
    if i < |frames| then frames[i].offset else bytes
  }

  /** The packets lie end to end and cover the request. */
  ghost predicate Packed(frames: seq<Frame>, bytes: nat) {
    && Start(frames, bytes, 0) == 0
    && forall i :: 0 <= i < |frames| ==> frames[i].length == Start(frames, bytes, i + 1) - Start(frames, bytes, i)
  }

  /** The isochronous case of usb_transfer_single: at most size bytes a packet, no gap, no overlap. */
  method LayPackets(bytes: nat, size: nat, frames: array<Frame>)
    requires size > 0 && frames.Length == Packets(bytes, size)
    modifies frames
    ensures Packed(frames[..], bytes)
    ensures forall i :: 0 <= i < frames.Length ==>
                          frames[i] == old(frames[i]).(offset := Times(size, i), length := LengthAt(bytes, size, i))
  {
    var i := 0;
    while i < frames.Length
      invariant 0 <= i <= frames.Length
      invariant forall k :: 0 <= k < i ==> frames[k] == old(frames[k]).(offset := Times(size, k), length := size)
      invariant forall k :: i <= k < frames.Length ==> frames[k] == old(frames[k])
    {
      frames[i] := frames[i].(offset := Times(size, i), length := size);
      i := i + 1;
    }
    PacketsCover(bytes, size);
    if Remainder(bytes, size) != 0 {
      frames[i - 1] := frames[i - 1].(length := Remainder(bytes, size));
    }
    StartsAt(frames[..], bytes, size);
  }

  lemma {:induction false} StartsAt(frames: seq<Frame>, bytes: nat, size: nat)
    requires size > 0 && |frames| == Packets(bytes, size)
    requires forall i :: 0 <= i < |frames| ==>
                           frames[i].offset == Times(size, i) && frames[i].length == LengthAt(bytes, size, i)
    ensures Packed(frames, bytes)
  {
    PacketsCover(bytes, size);
    forall i | 0 <= i < |frames| ensures frames[i].length == Start(frames, bytes, i + 1) - Start(frames, bytes, i) {
      TimesNext(size, i);
    }
  }

  // ---------------------------------------------------------------------
  // Compaction
  // ---------------------------------------------------------------------

  /** The host controller never reports more than a packet holds. */
  predicate Within(frames: seq<Frame>) {
    forall i :: 0 <= i < |frames| ==> frames[i].actual <= frames[i].length
  }

  /** How many bytes arrived in packets without an error. */
  function Total(frames: seq<Frame>): nat {
    if frames == [] then 0
    else
      var last := frames[|frames| - 1];
      Total(frames[..|frames| - 1]) + if last.status == 0 then last.actual else 0
  }

  /** What arrived lies inside the buffer. */
  predicate Inside(frames: seq<Frame>, limit: nat) {
    forall i :: 0 <= i < |frames| ==> frames[i].offset + frames[i].actual <= limit
  }

  /** The data of the packets without an error, in order. */
  function Delivered(frames: seq<Frame>, data: seq<Byte>): (r: seq<Byte>)
    requires Inside(frames, |data|)
    ensures |r| == Total(frames)
  {
    if frames == [] then []
    else
      var last := frames[|frames| - 1];
      Delivered(frames[..|frames| - 1], data)
      + if last.status == 0 then data[last.offset..last.offset + last.actual] else []
  }

  /** Packets packed end to end deliver no more than lies before the next one. */
  lemma {:induction false} TotalBound(frames: seq<Frame>, bytes: nat, n: nat)
    requires Packed(frames, bytes) && Within(frames) && n <= |frames|
    ensures Total(frames[..n]) <= Start(frames, bytes, n)
  {
    if n > 0 {
      TotalBound(frames, bytes, n - 1);
      assert frames[..n][..n - 1] == frames[..n - 1];
      assert frames[..n][n - 1] == frames[n - 1];
    }
  }

  lemma {:induction false} StartBound(frames: seq<Frame>, bytes: nat, n: nat)
    requires Packed(frames, bytes) && n <= |frames|
    ensures Start(frames, bytes, n) <= bytes
    decreases |frames| - n
  {
    if n < |frames| {
      StartBound(frames, bytes, n + 1);
      assert frames[n].length == Start(frames, bytes, n + 1) - Start(frames, bytes, n);
    }
  }

  /** A forward byte copy to a lower address moves the bytes even when the two ranges overlap. */
  method CopyDown(buf: array<Byte>, dst: nat, src: nat, n: nat)
    requires dst <= src && src + n <= buf.Length
    modifies buf
    ensures buf[..] == Moved(old(buf[..]), dst, src, n)
  {
    ghost var was := buf[..];
    var k := 0;
    while k < n
      invariant 0 <= k <= n
      invariant forall j :: 0 <= j < dst || dst + k <= j < buf.Length ==> buf[j] == was[j]
      invariant forall j :: dst <= j < dst + k ==> buf[j] == was[j - dst + src]
    {
      buf[dst + k] := buf[src + k];
      k := k + 1;
    }
    IsMoved(was, buf[..], dst, src, n);
  }

  function Moved(data: seq<Byte>, dst: nat, src: nat, n: nat): seq<Byte>
    requires dst <= src && src + n <= |data|
  {
    data[..dst] + data[src..src + n] + data[dst + n..]
  }

  lemma {:induction false} IsMoved(was: seq<Byte>, now: seq<Byte>, dst: nat, src: nat, n: nat)
    requires dst <= src && src + n <= |was| == |now|
    requires forall j :: 0 <= j < dst || dst + n <= j < |now| ==> now[j] == was[j]
    requires forall j :: dst <= j < dst + n ==> now[j] == was[j - dst + src]
    ensures now == Moved(was, dst, src, n)
  {
    assert now[..dst] == was[..dst];
    assert now[dst..dst + n] == was[src..src + n];
    assert now[dst + n..] == was[dst + n..];
    assert now == now[..dst] + now[dst..dst + n] + now[dst + n..];
  }

  class Urb {
    const buffer: array<Byte>
    const frames: array<Frame>
    const isoc: bool
    const input: bool
    var status: int
    var actualLength: nat

    constructor (buffer: array<Byte>, frames: array<Frame>, isoc: bool, input: bool, status: int)
      ensures this.buffer == buffer && this.frames == frames && this.isoc == isoc && this.input == input
      ensures this.status == status && actualLength == 0
    {
      this.buffer, this.frames, this.isoc, this.input := buffer, frames, isoc, input;
      this.status, actualLength := status, 0;
    }

    /** usb_common_completion: the data of the good packets is moved to the front of the buffer, the rest
        of the buffer is left alone, and the length becomes the number of bytes moved. */
    method CommonCompletion(ghost bytes: nat)
      requires Packed(frames[..], bytes) && Within(frames[..]) && bytes <= buffer.Length
      requires frames as object != buffer as object
      requires Inside(frames[..], buffer.Length)
      modifies this`actualLength, buffer
      ensures status == 0 && isoc ==> actualLength == Total(frames[..]) <= bytes
      ensures status == 0 && isoc && input ==>
                buffer[..] == old(Delivered(frames[..], buffer[..])) + old(buffer[..])[actualLength..]
      ensures status == 0 && isoc && !input ==> buffer[..] == old(buffer[..])
      ensures status != 0 || !isoc ==> actualLength == old(actualLength) && buffer[..] == old(buffer[..])
    {
      if status == 0 && isoc {
        actualLength := Compact(bytes);
      }
    }

    method Compact(ghost bytes: nat) returns (offset: nat)
      requires Packed(frames[..], bytes) && Within(frames[..]) && bytes <= buffer.Length
      requires frames as object != buffer as object
      requires Inside(frames[..], buffer.Length)
      modifies buffer
      ensures offset == Total(frames[..]) <= bytes
      ensures input ==> buffer[..] == old(Delivered(frames[..], buffer[..])) + old(buffer[..])[offset..]
      ensures !input ==> buffer[..] == old(buffer[..])
    {
      ghost var fs, data := frames[..], buffer[..];
      offset := 0;
      var i := 0;
      ghost var done: seq<Byte> := [];
      while i < frames.Length
        invariant 0 <= i <= frames.Length && frames[..] == fs
        invariant done == Delivered(fs[..i], data) && offset == |done|
        invariant Compacted(buffer[..], data, done, input)
      {
        assert fs[i] == frames[i];
        offset, done := TakePacket(i, frames[i], offset, fs, data, done, bytes);
        i := i + 1;
      }
      assert fs[..i] == fs;
      TotalBound(fs, bytes, i);
    }

    /** The loop body for one packet. */
    method TakePacket(i: nat, f: Frame, offset: nat, ghost fs: seq<Frame>, ghost data: seq<Byte>,
                      ghost done: seq<Byte>, ghost bytes: nat)
      returns (next: nat, ghost taken: seq<Byte>)
      requires Packed(fs, bytes) && Within(fs) && bytes <= |data| && Inside(fs, |data|) && i < |fs| && fs[i] == f
      requires done == Delivered(fs[..i], data) && offset == |done|
      requires Compacted(buffer[..], data, done, input)
      modifies buffer
      ensures taken == Delivered(fs[..i + 1], data) && next == |taken|
      ensures Compacted(buffer[..], data, taken, input)
    {
      DeliverNext(fs, data, bytes, i);
      next, taken := offset, done;
      if f.status == 0 {
        MovePacket(f, offset, data, done);
        next := offset + f.actual;
        taken := done + data[f.offset..f.offset + f.actual];
      }
    }

    /** The conditional copy of one good packet. */
    method MovePacket(f: Frame, offset: nat, ghost data: seq<Byte>, ghost done: seq<Byte>)
      requires offset == |done| <= f.offset && f.offset + f.actual <= |data|
      requires Compacted(buffer[..], data, done, input)
      modifies buffer
      ensures Compacted(buffer[..], data, done + data[f.offset..f.offset + f.actual], input)
    {
      if input && offset != f.offset && f.actual != 0 {
        MoveDown(done, data, f.offset, f.actual);
        CopyDown(buffer, offset, f.offset, f.actual);
      } else if input {
        NothingToMove(done, data, f.offset, f.actual);
      }
    }
  }

  /** On an input pipe the front of the buffer holds what was compacted and the rest is untouched. */
  predicate Compacted(now: seq<Byte>, data: seq<Byte>, done: seq<Byte>, input: bool) {
    |done| <= |data| && now == if input then done + data[|done|..] else data
  }

  lemma {:induction false} NothingToMove(done: seq<Byte>, data: seq<Byte>, src: nat, n: nat)
    requires |done| <= src && src + n <= |data| && (|done| == src || n == 0)
    ensures done + data[src..src + n] + data[|done| + n..] == done + data[|done|..]
  {
    if n == 0 {
      assert done + data[src..src] == done;
    } else {
      assert data[|done|..] == data[src..src + n] + data[src + n..];
    }
  }

  /** One more packet: its bytes still lie untouched behind what was compacted so far. */
  lemma {:induction false} DeliverNext(frames: seq<Frame>, data: seq<Byte>, bytes: nat, i: nat)
    requires Packed(frames, bytes) && Within(frames) && bytes <= |data| && i < |frames|
    requires Inside(frames, |data|)
    ensures var f, d := frames[i], Delivered(frames[..i], data);
            && |d| <= f.offset && |d| + f.actual <= |data|
            && Delivered(frames[..i + 1], data) == (if f.status == 0 then d + data[f.offset..f.offset + f.actual] else d)
            && Total(frames[..i + 1]) == |Delivered(frames[..i + 1], data)|
  {
    assert frames[..i + 1][..i] == frames[..i];
    TotalBound(frames, bytes, i);
    StartBound(frames, bytes, i + 1);
    assert frames[i].length == Start(frames, bytes, i + 1) - Start(frames, bytes, i);
  }

  /** Moving the next piece down behind what was compacted already. */
  lemma {:induction false} MoveDown(done: seq<Byte>, data: seq<Byte>, src: nat, n: nat)
    requires |done| <= src && src + n <= |data|
    ensures Moved(done + data[|done|..], |done|, src, n) == done + data[src..src + n] + data[|done| + n..]
  {
    var now := done + data[|done|..];
    assert now[..|done|] == done;
    assert now[src..src + n] == data[src..src + n];
    assert now[|done| + n..] == data[|done| + n..];
  }

  // ---------------------------------------------------------------------
  // Sizes
  // ---------------------------------------------------------------------

  const MAX_ALLOC_SIZE := 0x10000
  const MAX_PACKETS := 900
  
  datatype Kind = Control | Isochronous | Bulk | Interrupt

  function Min(a: nat, b: nat): nat { if a < b then a else b }

  /** A size in whole packets, or no more than one packet. */
  predicate InPackets(length: nat, size: nat)
    requires size > 0
  {
    length <= size || Remainder(length, size) == 0
  }

  /** A number of whole packets. */
  function WholePackets(count: nat, size: nat): (r: nat)
    requires size > 0
    ensures Remainder(r, size) == 0 && (count > 0 ==> r >= size)
  {
    QuotientUnique(Times(size, count), size, count, 0);
    if count > 0 then TimesMono(size, 1, count); Times(size, count) else Times(size, count)
  }

  lemma {:induction false} WholeBound(x: nat, size: nat)
    requires size > 0
    ensures WholePackets(Quotient(x, size), size) <= x
    ensures x >= size ==> WholePackets(Quotient(x, size), size) >= size
  {
    Division(x, size);
  }

  /** The first size try_allocate asks for. */
  function FirstSize(length: nat, kind: Kind, size: nat): (r: nat)
    requires kind == Isochronous ==> size > 0
    ensures length > 0 && (kind == Interrupt ==> size > 0) ==> r > 0
    ensures kind == Interrupt ==> r <= size
    ensures kind == Isochronous ==> InPackets(r, size)
  {
    var a := Min(length, MAX_ALLOC_SIZE);
    if kind == Interrupt then Min(length, size)
    else if kind != Isochronous then a
    else if Quotient(a, size) > MAX_PACKETS then WholePackets(MAX_PACKETS, size)
    else if a > size then WholePackets(Quotient(a - 1, size) + 1, size)
    else a
  }

  /** What that is: all of the request up to 64K; for interrupts at most a packet; for isochronous pipes as much
      rounded up to whole packets, unless it is a packet or less, and never more than 900 packets but for the rounding. */
  lemma {:induction false} FirstSizeIs(length: nat, kind: Kind, size: nat)
    requires length > 0 && (kind == Isochronous ==> size > 0)
    ensures var r, a := FirstSize(length, kind, size), if length <= 65536 then length else 65536;
            match kind
            case Interrupt => r == if length <= size then length else size
            case Control => r == a
            case Bulk => r == a
            case Isochronous =>
              if Times(size, 901) <= a then r == Times(size, 900)
              else if a <= size then r == a
              else a <= r < a + size && Remainder(r, size) == 0
  {
    if kind == Isochronous {
      var a := Min(length, MAX_ALLOC_SIZE);
      Division(a, size);
      var q := Quotient(a, size);
      if q > MAX_PACKETS { TimesMono(size, 901, q); }
      if q <= MAX_PACKETS {
        TimesNext(size, q);
        TimesMono(size, q + 1, 901);
        if a > size {
          Division(a - 1, size);
          TimesNext(size, Quotient(a - 1, size));
        }
      }
    }
  }

  /** The sizes tried from one on, down to the first that the kernel grants. */
  function GrantedFrom(alloc: nat, kind: Kind, size: nat, page: nat, grants: nat -> bool): (room: Option<nat>)
    requires page > 0 && size <= page && (kind == Isochronous ==> size > 0 && InPackets(alloc, size))
    ensures room.Some? ==> grants(room.value) && room.value <= alloc
    decreases alloc
  {
    if grants(alloc) then Some(alloc)
    else if alloc <= page then None
    else GrantedFrom(Smaller(alloc, kind, size), kind, size, page, grants)
  }

  /** try_allocate: halve the request until the kernel grants it or it is down to a page. An isochronous
      buffer holds whole packets, or no more than one packet, and is not empty. */
  method TryAllocate(length: nat, kind: Kind, size: nat, page: nat, grants: nat -> bool) returns (room: Option<nat>)
    requires length > 0 && page > 0 && size <= page
    ensures kind == Isochronous && size == 0 ==> room == None
    ensures (kind == Isochronous ==> size > 0) ==>
              room == GrantedFrom(FirstSize(length, kind, size), kind, size, page, grants)
    ensures room.Some? && kind == Isochronous ==> InPackets(room.value, size)
    ensures room.Some? && (kind == Interrupt ==> size > 0) ==> room.value > 0
    ensures room.Some? && kind == Interrupt ==> room.value <= size
  {
    if kind == Isochronous && size == 0 { return None; }
    var alloc: nat := FirstSize(length, kind, size);
    ghost var first := alloc;
    while true
      invariant kind == Isochronous ==> InPackets(alloc, size)
      invariant (kind == Interrupt ==> size > 0) ==> alloc > 0
      invariant kind == Interrupt ==> alloc <= size
      invariant GrantedFrom(first, kind, size, page, grants) == GrantedFrom(alloc, kind, size, page, grants)
      decreases alloc
    {
      if grants(alloc) { return Some(alloc); }
      if alloc <= page { return None; }
      alloc := Smaller(alloc, kind, size);
    }
  }

  /** The next size to try. */
  function Smaller(alloc: nat, kind: Kind, size: nat): (r: nat)
    requires alloc > 1 && (kind == Isochronous ==> 0 < size < alloc && InPackets(alloc, size))
    ensures 0 < r < alloc && (kind == Isochronous ==> InPackets(r, size))
  {
    if kind == Isochronous then
      TwoPackets(alloc, size);
      WholeBound(alloc / 2, size);
      WholePackets(Quotient(alloc / 2, size), size)
    else alloc / 2
  }

  /** What that is: half of it, or as many whole packets as fit in half of it. */
  lemma {:induction false} SmallerIs(alloc: nat, kind: Kind, size: nat)
    requires alloc > 1 && (kind == Isochronous ==> 0 < size < alloc && InPackets(alloc, size))
    ensures var r := Smaller(alloc, kind, size);
            if kind == Isochronous then 2 * r <= alloc && alloc - 2 * r < 2 * size && Remainder(r, size) == 0
            else 2 * r <= alloc <= 2 * r + 1
  {
    if kind == Isochronous { Division(alloc / 2, size); }
  }

  lemma {:induction false} TwoPackets(alloc: nat, size: nat)
    requires 0 < size < alloc && Remainder(alloc, size) == 0
    ensures alloc >= 2 * size
  {
    Division(alloc, size);
    var q := Quotient(alloc, size);
    assert Times(size, 0) == 0 && Times(size, 1) == size && Times(size, 2) == 2 * size;
    if q >= 2 { TimesMono(size, 2, q); }
  }

  /** How much a round asks for, when so much of the request is left. */
  function SingleLength(left: nat, room: nat, kind: Kind, size: nat): (r: nat)
    requires kind == Isochronous ==> size > 0
    requires left > 0 && room > 0
    ensures 0 < r <= left && r <= room
    ensures kind == Isochronous ==> InPackets(r, size)
  {
    var s := Min(left, room);
    if kind == Isochronous && s > size then
      WholeBound(s, size);
      WholePackets(Quotient(s, size), size)
    else s
  }

  /** A round asks for all that is left and fits, or for the most whole packets of it. */
  lemma {:induction false} AsksForMost(left: nat, room: nat, kind: Kind, size: nat)
    requires (kind == Isochronous ==> size > 0) && left > 0 && room > 0
    ensures var n, r := if left <= room then left else room, SingleLength(left, room, kind, size);
            if kind != Isochronous || n <= size then r == n else r <= n < r + size && Remainder(r, size) == 0
  {
    if kind == Isochronous { Division(Min(left, room), size); }
  }

  /** A URB allocated for the first round has room for the packets of every later one. */
  lemma {:induction false} UrbHoldsRound(left: nat, bytes: nat, room: nat, size: nat)
    requires 0 < left <= bytes && room > 0 && size > 0
    ensures Packets(SingleLength(left, room, Isochronous, size), size) <= Packets(Min(bytes, room), size)
  {
    QuotientMono(SingleLength(left, room, Isochronous, size) + size - 1, Min(bytes, room) + size - 1, size);
  }

  lemma {:induction false} QuotientMono(x: nat, y: nat, d: nat)
    requires d > 0 && x <= y
    ensures Quotient(x, d) <= Quotient(y, d)
  {
    Division(x, d);
    Division(y, d);
    if Quotient(y, d) < Quotient(x, d) {
      TimesMono(d, Quotient(y, d) + 1, Quotient(x, d));
      TimesNext(d, Quotient(y, d));
    }
  }
}
