// The simulated pipe device: reassembling chunks from reads of any size, and handing out channel
// handles from a ring of free channels (unix-pipe-device-bdpi.c).
module UnixPipe {
  import opened Arith
  import opened Common

  // ---------------------------------------------------------------------
  // Streams and chunks
  // ---------------------------------------------------------------------

  function Joined(chunks: seq<seq<Byte>>): seq<Byte> {
    if chunks == [] then [] else Joined(chunks[..|chunks| - 1]) + chunks[|chunks| - 1]
  }

  /** A stream cut into pieces of the given size; an incomplete last piece is not included. */
  function Cut(stream: seq<Byte>, size: nat): seq<seq<Byte>>
    requires size > 0
  {
    if |stream| < size then [] else [stream[..size]] + Cut(stream[size..], size)
  }

  predicate AllOf(chunks: seq<seq<Byte>>, size: nat) {
    forall k :: 0 <= k < |chunks| ==> |chunks[k]| == size
  }

  lemma {:induction false} JoinedSplit(chunks: seq<seq<Byte>>)
    requires chunks != []
    ensures Joined(chunks) == chunks[0] + Joined(chunks[1..])
  {
    if |chunks| == 1 {
      assert chunks[..0] == [] && chunks[1..] == [];
      assert [] + chunks[0] == chunks[0] + [];
    } else {
      var init, last := chunks[..|chunks| - 1], chunks[|chunks| - 1];
      JoinedSplit(init);
      assert init[1..] == chunks[1..][..|chunks| - 2];
      assert chunks[1..][|chunks| - 2] == last;
      assert Joined(init) + last == chunks[0] + (Joined(init[1..]) + last);
    }
  }

  /** Whole chunks followed by less than a chunk are the cut of the stream they make up. */
  lemma {:induction false} CutOfJoined(chunks: seq<seq<Byte>>, rest: seq<Byte>, size: nat)
    requires size > 0 && AllOf(chunks, size) && |rest| < size
    ensures Cut(Joined(chunks) + rest, size) == chunks
    decreases |chunks|
  {
    var stream := Joined(chunks) + rest;
    if chunks == [] {
      assert stream == rest;
    } else {
      JoinedSplit(chunks);
      assert stream[..size] == chunks[0];
      assert stream[size..] == Joined(chunks[1..]) + rest;
      CutOfJoined(chunks[1..], rest, size);
    }
  }

  // ---------------------------------------------------------------------
  // Reading one channel
  // ---------------------------------------------------------------------

  /** What the operating system has for one call: the pipe cannot be opened yet, nothing to read, some
      bytes, the end of the file, or an error. */
  datatype Poll = Closed | Nothing | Bytes(data: seq<Byte>) | EndOfFile | Failed

  datatype Result = Chunk(data: seq<Byte>) | Null | Exit

  class Channel {
    /** BLOCK_SIZE and BDPI_CHUNK_BYTES; the code defines both as the size of a UMF chunk. */
    const block: nat
    const chunk: nat
    const persistent: bool
    const inputBuffer: array<Byte>
    var ibHead: nat
    var ibTail: nat
    var needReset: bool
    /** Everything read from the pipe and every chunk returned, since the channel was opened. */
    ghost var consumed: seq<Byte>
    ghost var returned: seq<seq<Byte>>

    constructor (block: nat, chunk: nat, persistent: bool)
      requires 0 < chunk <= block
      ensures Valid() && this.block == block && this.chunk == chunk && this.persistent == persistent
      ensures ibHead == 0 == ibTail && consumed == [] && returned == [] && fresh(inputBuffer)
    {
      this.block, this.chunk, this.persistent := block, chunk, persistent;
      inputBuffer := new Byte[block];
      ibHead, ibTail, needReset := 0, 0, false;
      consumed, returned := [], [];
    }

    /** Nothing is lost, repeated or reordered: the chunks returned and the bytes still buffered are,
        in order, everything that was read. */
    ghost predicate Valid()
      reads this, inputBuffer
    {
      && 0 < chunk <= block == inputBuffer.Length
      && ibHead <= ibTail <= block && (ibHead == ibTail ==> ibHead == 0)
      && ibHead % chunk == 0
      && AllOf(returned, chunk)
      && consumed == Joined(returned) + inputBuffer[ibHead..ibTail]
    }

    /** A full buffer that holds less than a chunk could neither be read into nor returned. */
    ghost predicate Stuck()
      reads this`ibHead, this`ibTail
    {
      ibTail == block && ibTail - ibHead < chunk
    }

    /** Append what a read delivered behind the bytes already buffered. */
    method Fill(data: seq<Byte>)
      requires Valid() && 0 < |data| <= block - ibTail
      modifies this`ibTail, this`consumed, inputBuffer
      ensures Valid() && ibTail == old(ibTail) + |data| && consumed == old(consumed) + data
    {
      ghost var kept := inputBuffer[ibHead..ibTail];
      forall k | 0 <= k < |data| { inputBuffer[ibTail + k] := data[k]; }
      ibTail := ibTail + |data|;
      consumed := consumed + data;
      assert inputBuffer[ibHead..ibTail] == kept + data;
      assert Joined(returned) + kept + data == Joined(returned) + (kept + data);
    }

    /** Hand out the oldest chunk, and start over at the front once the buffer is empty. */
    method TakeChunk() returns (r: Result)
      requires Valid() && ibTail - ibHead >= chunk
      modifies this`ibHead, this`ibTail, this`returned
      ensures Valid() && r.Chunk? && returned == old(returned) + [r.data]
      ensures ibTail - ibHead == old(ibTail) - old(ibHead) - chunk
      ensures block == chunk ==> ibHead == 0 == ibTail
    {
      ghost var kept, before := inputBuffer[ibHead..ibTail], returned;
      r := Chunk(inputBuffer[ibHead..ibHead + chunk]);
      assert kept == r.data + kept[chunk..];
      NextMultiple(ibHead, chunk);
      ibHead := ibHead + chunk;
      returned := before + [r.data];
      assert returned[..|before|] == before;
      assert Joined(before) + (r.data + kept[chunk..]) == Joined(returned) + kept[chunk..];
      assert inputBuffer[ibHead..ibTail] == kept[chunk..];
      if ibHead == ibTail {
        ibHead := 0;
        ibTail := 0;
        assert inputBuffer[ibHead..ibTail] == [] == kept[chunk..];
      }
    }

    /** The scan of the pipe, done when the block has room. */
    method Scan(poll: Poll) returns (exits: bool)
      requires Valid() && ibTail < block && poll != Closed
      requires poll.Bytes? ==> 0 < |poll.data| <= block - ibTail
      modifies this`ibTail, this`needReset, this`consumed, inputBuffer
      ensures Valid() && (exits <==> poll == Failed || (poll == EndOfFile && !persistent))
      ensures consumed == if poll.Bytes? then old(consumed) + poll.data else old(consumed)
      ensures needReset == (old(needReset) || (poll == EndOfFile && persistent))
    {
      if poll == Failed || (poll == EndOfFile && !persistent) { return true; }
      if poll == EndOfFile { needReset := true; }
      if poll.Bytes? { Fill(poll.data); }
      exits := false;
    }

    /** pipe_read: a chunk is returned as soon as one is complete. With blocks of one chunk, as in the code,
        reading always starts at the front of the buffer and the buffer never stays full. */
    method PipeRead(poll: Poll) returns (r: Result)
      requires Valid()
      requires poll.Bytes? ==> 0 < |poll.data| && (ibTail < block ==> |poll.data| <= block - ibTail)
      modifies this`ibHead, this`ibTail, this`needReset, this`consumed, this`returned, inputBuffer
      ensures Valid()
      ensures r == Exit <==> old(ibTail) < block && (poll == Failed || (poll == EndOfFile && !persistent))
      ensures consumed == if poll.Bytes? && old(ibTail) < block then old(consumed) + poll.data else old(consumed)
      ensures returned == if r.Chunk? then old(returned) + [r.data] else old(returned)
      ensures r == Null && poll != Closed ==> ibTail - ibHead < chunk
      ensures needReset == (old(needReset) || (old(ibTail) < block && poll == EndOfFile && persistent))
      ensures block == chunk && old(ibTail) < block && r != Exit ==> ibHead == 0 && ibTail < block
    {
      if poll == Closed { HeadAtFront(); return Null; }
      if ibTail < block {
        var exits := Scan(poll);
        if exits { return Exit; }
      }
      if ibTail - ibHead >= chunk {
        r := TakeChunk();
      } else {
        r := Null;
        HeadAtFront();
      }
    }

    lemma {:induction false} HeadAtFront()
      requires Valid()
      ensures block == chunk && ibTail - ibHead < chunk ==> ibHead == 0 && ibTail < block
    {
      if block == chunk && 0 < ibHead < chunk { SmallMod(ibHead, chunk); }
    }

    /** The chunks returned so far are the bytes read so far, cut into chunks, once no complete chunk is
        waiting in the buffer. */
    lemma {:induction false} ReturnedIsCut()
      requires Valid() && ibTail - ibHead < chunk
      ensures returned == Cut(consumed, chunk)
    {
      CutOfJoined(returned, inputBuffer[ibHead..ibTail], chunk);
    }

    /** With blocks of one chunk, the buffer fills up to the next multiple of the block in the stream. */
    lemma {:induction false} TailIsRemainder()
      requires Valid() && block == chunk && ibHead == 0 && ibTail < block
      ensures |consumed| % block == ibTail
    {
      JoinedLength(returned, chunk);
      ModUnique(|consumed|, block, |returned|, ibTail);
    }

    /** If a block is a whole number of chunks, a full buffer always has a chunk to return. */
    lemma {:induction false} NeverStuck()
      requires Valid() && block % chunk == 0
      ensures !Stuck()
    {
      if Stuck() && ibHead < ibTail { RemainderOfGap(ibHead, block, chunk); }
    }
  }

  lemma {:induction false} RemainderOfGap(x: nat, y: nat, d: nat)
    requires d > 0 && x < y && x % d == 0 && y % d == 0
    ensures y - x >= d
  {
    var p, q := x / d, y / d;
    assert x == d * p && y == d * q;
    if q <= p { MulMono(d, q, p); }
    MulMono(d, p + 1, q);
    assert d * (p + 1) == d * p + d;
  }

  lemma {:induction false} NextMultiple(x: nat, d: nat)
    requires d > 0 && x % d == 0
    ensures (x + d) % d == 0
  {
    assert x == d * (x / d);
    assert d * (x / d + 1) == d * (x / d) + d;
    ModUnique(x + d, d, x / d + 1, 0);
  }

  function Min(a: nat, b: nat): nat { if a < b then a else b }

  /** How much of a stream is read by calls that find at most so many bytes ready: a read never crosses the
      end of a block. */
  function ReadBy(sizes: seq<nat>, block: nat, length: nat): (read: nat)
    requires block > 0
    ensures read <= length
  {
    if sizes == [] then 0
    else
      var read := ReadBy(sizes[..|sizes| - 1], block, length);
      SmallerThan(read, block);
      read + Min(sizes[|sizes| - 1], Min(block - read % block, length - read))
  }

  lemma {:induction false} SmallerThan(x: nat, d: nat)
    requires d > 0
    ensures 0 <= x % d < d
  {}

  function NonZero(sizes: seq<nat>): nat {
    if sizes == [] then 0 else NonZero(sizes[..|sizes| - 1]) + if sizes[|sizes| - 1] > 0 then 1 else 0
  }

  /** Every call that finds something ready reads on: as many of them as the stream has bytes read it all. */
  lemma {:induction false} AllIsRead(sizes: seq<nat>, block: nat, length: nat)
    requires block > 0
    ensures ReadBy(sizes, block, length) >= Min(NonZero(sizes), length)
    ensures NonZero(sizes) >= length ==> ReadBy(sizes, block, length) == length
  {
    if sizes != [] {
      var front := sizes[..|sizes| - 1];
      AllIsRead(front, block, length);
      SmallerThan(ReadBy(front, block, length), block);
    }
  }

  /** Calls that find everything ready read a whole block each. */
  lemma {:induction false} ReadyReadsBlocks(sizes: seq<nat>, block: nat, length: nat)
    requires block > 0 && forall i :: 0 <= i < |sizes| ==> sizes[i] >= block
    ensures ReadBy(sizes, block, length) == Min(Times(block, |sizes|), length)
  {
    if sizes == [] {
      assert Times(block, 0) == 0;
    } else {
      var n := |sizes| - 1;
      ReadyReadsBlocks(sizes[..n], block, length);
      TimesNext(block, n);
      var read := ReadBy(sizes[..n], block, length);
      SmallerThan(read, block);
      if Times(block, n) <= length { WholeTimes(block, n); }
    }
  }

  lemma {:induction false} WholeTimes(d: nat, n: nat)
    requires d > 0
    ensures Times(d, n) % d == 0
  {
    ModUnique(Times(d, n), d, n, 0);
  }

  lemma {:induction false} JoinedLength(chunks: seq<seq<Byte>>, size: nat)
    requires AllOf(chunks, size)
    ensures |Joined(chunks)| == Times(size, |chunks|)
  {
    if chunks != [] {
      JoinedLength(chunks[..|chunks| - 1], size);
      TimesNext(size, |chunks| - 1);
    } else {
      assert Times(size, 0) == 0;
    }
  }

  /** The chunks among the answers of a run of calls. */
  function ChunksOf(results: seq<Result>): seq<seq<Byte>> {
    if results == [] then []
    else
      var last := results[|results| - 1];
      ChunksOf(results[..|results| - 1]) + if last.Chunk? then [last.data] else []
  }

  lemma {:induction false} ReadByNext(sizes: seq<nat>, i: nat, block: nat, length: nat)
    requires block > 0 && i < |sizes|
    ensures var read := ReadBy(sizes[..i], block, length);
            && 0 <= read % block < block
            && ReadBy(sizes[..i + 1], block, length) == read + Min(sizes[i], Min(block - read % block, length - read))
  {
    assert sizes[..i + 1][..i] == sizes[..i];
    SmallerThan(ReadBy(sizes[..i], block, length), block);
  }

  lemma {:induction false} ChunksSnoc(results: seq<Result>, r: Result)
    ensures ChunksOf(results + [r]) == ChunksOf(results) + if r.Chunk? then [r.data] else []
  {
    assert (results + [r])[..|results|] == results;
  }

  /** One call that finds at most so many bytes ready: the operating system fills the block as far as it can. */
  method ReadOnce(channel: Channel, stream: seq<Byte>, read0: nat, ready: nat) returns (r: Result, read: nat)
    requires channel.Valid() && channel.block == channel.chunk && channel.ibHead == 0 && channel.ibTail < channel.block
    requires read0 <= |stream| && channel.consumed == stream[..read0]
    modifies channel, channel.inputBuffer
    ensures channel.Valid() && channel.ibHead == 0 && channel.ibTail < channel.block
    ensures read == read0 + Min(ready, Min(channel.block - old(channel.ibTail), |stream| - read0))
    ensures channel.consumed == stream[..read]
    ensures channel.returned == old(channel.returned) + if r.Chunk? then [r.data] else []
  {
    read := read0 + Min(ready, Min(channel.block - channel.ibTail, |stream| - read0));
    assert stream[..read] == stream[..read0] + stream[read0..read];
    r := channel.PipeRead(if read == read0 then Nothing else Bytes(stream[read0..read]));
  }

  /** Call i of a run: it finds at most sizes[i] bytes ready. */
  method ReadNext(channel: Channel, stream: seq<Byte>, sizes: seq<nat>, i: nat, read0: nat, ghost results: seq<Result>)
    returns (r: Result, read: nat)
    requires channel.Valid() && channel.block == channel.chunk && channel.ibHead == 0 && channel.ibTail < channel.block
    requires i < |sizes| && read0 == ReadBy(sizes[..i], channel.block, |stream|)
    requires channel.consumed == stream[..read0] && channel.returned == ChunksOf(results)
    modifies channel, channel.inputBuffer
    ensures channel.Valid() && channel.ibHead == 0 && channel.ibTail < channel.block
    ensures read == ReadBy(sizes[..i + 1], channel.block, |stream|)
    ensures channel.consumed == stream[..read] && channel.returned == ChunksOf(results + [r])
  {
    channel.TailIsRemainder();
    ReadByNext(sizes, i, channel.block, |stream|);
    r, read := ReadOnce(channel, stream, read0, sizes[i]);
    ChunksSnoc(results, r);
  }

  /** A run of calls on a newly opened channel, with the block size of the code. Call i finds at most
      sizes[i] bytes of the stream ready. However the reads fall, they take as much of the stream as the
      block allows, the chunks returned are that part of the stream, cut into chunks, and less than a chunk
      waits at the front of the buffer. */
  method ReadRun(channel: Channel, stream: seq<Byte>, sizes: seq<nat>) returns (results: seq<Result>, read: nat)
    requires channel.Valid() && channel.block == channel.chunk && channel.ibHead == 0 == channel.ibTail
    requires channel.consumed == [] && channel.returned == []
    modifies channel, channel.inputBuffer
    ensures channel.Valid() && channel.ibHead == 0 && channel.ibTail < channel.block
    ensures |results| == |sizes| && read == ReadBy(sizes, channel.block, |stream|)
    ensures channel.consumed == stream[..read] && channel.returned == ChunksOf(results)
    ensures ChunksOf(results) == Cut(stream[..read], channel.chunk)
    ensures stream[..read] == Joined(ChunksOf(results)) + channel.inputBuffer[..channel.ibTail]
  {
    results, read := [], 0;
    var i := 0;
    while i < |sizes|
      invariant 0 <= i <= |sizes| && read == ReadBy(sizes[..i], channel.block, |stream|)
      invariant channel.Valid() && channel.ibHead == 0 && channel.ibTail < channel.block
      invariant channel.consumed == stream[..read] && channel.returned == ChunksOf(results) && |results| == i
    {
      var r;
      r, read := ReadNext(channel, stream, sizes, i, read, results);
      results := results + [r];
      i := i + 1;
    }
    assert sizes[..i] == sizes;
    channel.ReturnedIsCut();
  }

  // ---------------------------------------------------------------------
  // The ring of free channels
  // ---------------------------------------------------------------------

  const MAX_OPEN_CHANNELS := 32
  const LAST := 31

  class Table {
    /** The circular doubly linked list of free channels, and the handle each channel reports. */
    const prev: array<nat>
    const next: array<nat>
    const tableIndex: array<nat>
    const open: array<bool>
    var freeList: Option<nat>

    /** With n channels opened, the free ones are n to 31, linked in a circle in order. */
    ghost predicate Ring(n: nat)
      reads this, prev, next, tableIndex, open
    {
      && prev.Length == next.Length == tableIndex.Length == open.Length == MAX_OPEN_CHANNELS
      && prev != next && prev != tableIndex && next != tableIndex
      && n <= MAX_OPEN_CHANNELS
      && (forall i :: 0 <= i < MAX_OPEN_CHANNELS ==> tableIndex[i] == if i < LAST then i else 0)
      && (forall i :: 0 <= i < MAX_OPEN_CHANNELS ==> (open[i] <==> i < n))
      && (if n == MAX_OPEN_CHANNELS then freeList == None else freeList == Some(n))
      && (n < MAX_OPEN_CHANNELS ==> prev[n] == LAST && next[LAST] == n)
      && (forall i :: n < i < MAX_OPEN_CHANNELS ==> prev[i] == i - 1)
      && (forall i :: n <= i < LAST ==> next[i] == i + 1)
    }

    /** pipe_init, as far as the table goes. The handle of the last channel is never set. */
    constructor ()
      ensures Ring(0)
      ensures fresh(prev) && fresh(next) && fresh(tableIndex) && fresh(open)
    {
      prev := new nat[MAX_OPEN_CHANNELS](i => 0);
      next := new nat[MAX_OPEN_CHANNELS](i => 0);
      tableIndex := new nat[MAX_OPEN_CHANNELS](i => 0);
      open := new bool[MAX_OPEN_CHANNELS](i => false);
      freeList := Some(0);
      new;
      prev[0] := LAST;
      next[0] := 1;
      for i := 1 to LAST
        invariant prev[0] == LAST && next[0] == 1 && freeList == Some(0)
        invariant forall j :: 0 <= j < MAX_OPEN_CHANNELS ==> tableIndex[j] == if j < i then j else 0
        invariant forall j :: 0 < j < i ==> prev[j] == j - 1 && next[j] == j + 1
        invariant forall j :: 0 <= j < MAX_OPEN_CHANNELS ==> !open[j]
      {
        tableIndex[i] := i;
        prev[i] := i - 1;
        next[i] := i + 1;
      }
      prev[LAST] := LAST - 1;
      next[LAST] := 0;
    }

    /** pipe_open: take the channel at the head of the ring; None stands for the fatal error when all are
        taken. Call n returns handle n, except that the last channel reports handle 0. */
    method PipeOpen(ghost n: nat) returns (handle: Option<nat>)
      requires Ring(n)
      modifies this`freeList, prev, next, open
      ensures handle == if n == MAX_OPEN_CHANNELS then None else if n == LAST then Some(0) else Some(n)
      ensures Ring(if n == MAX_OPEN_CHANNELS then n else n + 1)
    {
      if freeList == None { return None; }
      var c := freeList.value;
      if next[c] == c {
        freeList := None;
      } else {
        var p, q := prev[c], next[c];
        next[p] := q;
        prev[q] := p;
        freeList := Some(q);
      }
      open[c] := true;
      handle := Some(tableIndex[c]);
    }

    /** Opening channels until k are asked for: as long as there are at most 31, every channel has its own
        handle; the 32nd shares handle 0 with the first. */
    method OpenMany(k: nat) returns (handles: seq<nat>)
      requires Ring(0) && k <= MAX_OPEN_CHANNELS
      modifies this`freeList, prev, next, open
      ensures Ring(k) && |handles| == k
      ensures (forall i, j :: 0 <= i < j < k ==> handles[i] != handles[j]) <==> k < MAX_OPEN_CHANNELS
      ensures k == MAX_OPEN_CHANNELS ==> handles[0] == handles[LAST]
    {
      handles := [];
      while |handles| < k
        invariant |handles| <= k && Ring(|handles|)
        invariant forall i :: 0 <= i < |handles| ==> handles[i] == if i == LAST then 0 else i
      {
        var handle := PipeOpen(|handles|);
        handles := handles + [handle.value];
      }
      if k == MAX_OPEN_CHANNELS { assert handles[0] == handles[LAST]; }
    }
  }
}
