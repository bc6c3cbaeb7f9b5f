// UMF messages as objects: a byte buffer with a read and a write index, the marshallers and
// demarshallers, and the transfer of a message in chunks (umf-little-endian.h and .cpp).
module Umf {
  import opened Arith
  import opened Common
  import opened UmfHeader
  import opened UmfBytes

  const WORD_BITS := 32

  class Message {
    const widths: Widths
    const message: array<Byte>
    var readIndex: nat
    var writeIndex: nat
    var channelID: nat
    var serviceID: nat
    var methodID: nat
    var length: nat
    var phyPvt: nat

    constructor (w: Widths, maxBytes: nat)
      requires ValidWidths(w)
      ensures Valid() && widths == w && message.Length == maxBytes && fresh(message)
      ensures length == 0 && readIndex == 0 && writeIndex == 0
    {
      widths := w;
      message := new Byte[maxBytes];
      channelID, serviceID, methodID, phyPvt := 0, 0, 0, 0;
      new;
      Clear();
    }

    ghost predicate Valid()
      reads this
    {
      ValidWidths(widths) && readIndex <= message.Length && writeIndex <= message.Length && length <= message.Length
    }

    /** What has been written. */
    ghost function Contents(): seq<Byte>
      requires writeIndex <= message.Length
      reads this, message
    {
      message[..writeIndex]
    }

    /** The header fields. */
    function Fields(pvt: nat): Header
      reads this
    {
      Header(pvt, channelID, serviceID, methodID, length)
    }

    predicate CanExtract(n: nat)
      reads this
    {
      writeIndex - readIndex >= n
    }

    method Clear()
      requires ValidWidths(widths)
      modifies this`length, this`readIndex, this`writeIndex
      ensures Valid() && length == 0 && readIndex == 0 && writeIndex == 0
    {
      length, readIndex, writeIndex := 0, 0, 0;
    }

    method StartAppend()
      requires Valid()
      modifies this`writeIndex
      ensures Valid() && writeIndex == 0 && Contents() == []
    {
      writeIndex := 0;
    }

    method StartExtract()
      requires Valid()
      modifies this`readIndex
      ensures Valid() && readIndex == 0
    {
      readIndex := 0;
    }

    /** Append raw bytes; the assertion on the length fails instead of writing past it. */
    method AppendBytes(data: seq<Byte>) returns (ok: bool)
      requires Valid()
      modifies this`writeIndex, message
      ensures Valid() && (ok <==> old(writeIndex) + |data| <= length)
      ensures Contents() == if ok then old(Contents()) + data else old(Contents())
    {
      ok := writeIndex + |data| <= length;
      if ok {
        forall i | 0 <= i < |data| { message[writeIndex + i] := data[i]; }
        writeIndex := writeIndex + |data|;
      }
    }

    /** AppendUINT8, AppendUINT16, AppendUINT32, AppendUINT64 and AppendChunk: a typed store. */
    method AppendWord(value: nat, width: nat) returns (ok: bool)
      requires Valid() && value < Pow2(8 * width)
      modifies this`writeIndex, message
      ensures Valid() && (ok <==> old(writeIndex) + width <= length)
      ensures Contents() == if ok then old(Contents()) + LE(value, width) else old(Contents())
    {
      ok := AppendBytes(LE(value, width));
    }

    /** AppendUINT: the low n bytes of a 64-bit value; more than 8 is a fatal error. */
    method AppendUINT(value: nat, n: nat) returns (ok: bool)
      requires Valid() && value < Pow2(64)
      modifies this`writeIndex, message
      ensures Valid() && (ok <==> n <= 8 && old(writeIndex) + n <= length)
      ensures Contents() == if ok then old(Contents()) + LE(value, n) else old(Contents())
    {
      if n > 8 { return false; }
      ok := AppendBytes(LE(value, n));
    }

    /** AppendChunks: the memory of an array of chunks, as raw bytes. */
    method AppendChunks(chunks: seq<nat>) returns (ok: bool)
      requires Valid()
      modifies this`writeIndex, message
      ensures Valid() && (ok <==> old(writeIndex) + Times(widths.chunkBytes, |chunks|) <= length)
      ensures Contents() == if ok then old(Contents()) + Unchunked(chunks, widths.chunkBytes) else old(Contents())
    {
      ok := AppendBytes(Unchunked(chunks, widths.chunkBytes));
    }

    /** ExtractBytes; reading an incomplete message only draws a warning. */
    method ExtractBytes(n: nat) returns (data: seq<Byte>)
      requires Valid() && readIndex + n <= message.Length
      modifies this`readIndex
      ensures Valid() && readIndex == old(readIndex) + n
      ensures data == message[old(readIndex)..readIndex]
    {
      data := message[readIndex..readIndex + n];
      readIndex := readIndex + n;
    }

    /** The typed loads and ExtractChunk. */
    method ExtractWord(width: nat) returns (value: nat)
      requires Valid() && readIndex + width <= message.Length
      modifies this`readIndex
      ensures Valid() && readIndex == old(readIndex) + width
      ensures value == Value(message[old(readIndex)..readIndex]) && value < Pow2(8 * width)
    {
      var data := ExtractBytes(width);
      ValueBound(data);
      value := Value(data);
    }

    /** ExtractAllChunks reads from the start as long as a byte is left, so the last chunk may run past
        what was written. */
    method ExtractAllChunks(dst: array<nat>) returns (n: nat)
      requires Valid() && dst as object != message as object
      requires Times(widths.chunkBytes, NumChunks(writeIndex, widths.chunkBytes)) <= message.Length
      requires NumChunks(writeIndex, widths.chunkBytes) <= dst.Length
      modifies this`readIndex, dst
      ensures Valid() && n == NumChunks(writeIndex, widths.chunkBytes)
      ensures readIndex == Times(widths.chunkBytes, n)
      ensures dst[..n] == Chunks(message[..], widths.chunkBytes, n)
    {
      StartExtract();
      n := 0;
      ghost var c := widths.chunkBytes;
      ghost var all := NumChunks(writeIndex, c);
      ChunksCover(writeIndex, c, 0);
      while CanExtract(1)
        invariant Valid() && 0 <= n <= all && readIndex == Times(c, n)
        invariant CanExtract(1) <==> n < all
        invariant dst[..n] == Chunks(message[..], c, n)
        decreases all - n
      {
        TimesNext(c, n);
        TimesMono(c, n + 1, all);
        ChunksCover(writeIndex, c, n + 1);
        dst[n] := ExtractWord(widths.chunkBytes);
        assert message[..][Times(c, n)..Times(c, n + 1)] == message[Times(c, n)..Times(c, n + 1)];
        assert dst[..n + 1] == dst[..n] + [dst[n]];
        n := n + 1;
      }
    }

    /** ExtractChunks insists on taking everything that is left, up to the length rounded by mask. */
    method ExtractChunks(count: nat, dst: array<nat>) returns (ok: bool)
      requires Valid() && dst as object != message as object && dst.Length >= count
      requires length + widths.chunkBytes - 1 < Pow2(WORD_BITS)
      requires Times(widths.chunkBytes, NumChunks(length, widths.chunkBytes)) <= message.Length
      modifies this`readIndex, dst
      ensures Valid()
      ensures ok <==> Times(widths.chunkBytes, count) + old(readIndex)
                      == Times(widths.chunkBytes, NumChunks(length, widths.chunkBytes))
      ensures ok ==> readIndex == old(readIndex) + Times(widths.chunkBytes, count)
                     && dst[..count] == Chunks(message[old(readIndex)..], widths.chunkBytes, count)
      ensures !ok ==> readIndex == old(readIndex)
    {
      MaskRoundsUp(length, widths.chunkBytes, WORD_BITS);
      ok := Times(widths.chunkBytes, count) + readIndex == RoundByMask(length, widths.chunkBytes, WORD_BITS);
      if !ok { return; }
      var src := readIndex;
      readIndex := readIndex + Times(widths.chunkBytes, count);
      CopyChunks(src, count, dst);
    }

    /** The copying loop of ExtractChunks. */
    method CopyChunks(src: nat, count: nat, dst: array<nat>)
      requires dst as object != message as object && dst.Length >= count
      requires src + Times(widths.chunkBytes, count) <= message.Length
      modifies dst
      ensures dst[..count] == Chunks(message[src..], widths.chunkBytes, count)
    {
      var c, i := widths.chunkBytes, 0;
      ghost var left := message[src..];
      while i < count
        invariant 0 <= i <= count
        invariant dst[..i] == Chunks(left, c, i)
      {
        TimesNext(c, i);
        TimesMono(c, i + 1, count);
        var at := src + Times(c, i);
        dst[i] := Value(message[at..at + c]);
        assert left[Times(c, i)..Times(c, i + 1)] == message[at..at + c];
        assert dst[..i + 1] == dst[..i] + [dst[i]];
        i := i + 1;
      }
    }

    /** EncodeHeaderWithPhyChannelPvt: shift the chunk and or the next field in, four times. */
    method EncodeHeader(pvt: nat) returns (chunk: nat)
      requires Valid()
      ensures chunk == Encode(widths, Fields(pvt))
    {
      var b, c := Bits(widths), widths.chunkBytes;
      var numChunks := if length % c == 0 then length / c else length / c + 1;
      chunk := pvt % Pow2(b);
      chunk := Shl(chunk, widths.channel, b);
      chunk := Or(chunk, channelID) % Pow2(b);
      chunk := Shl(chunk, widths.service, b);
      chunk := Or(chunk, serviceID) % Pow2(b);
      chunk := Shl(chunk, widths.procedure, b);
      chunk := Or(chunk, methodID) % Pow2(b);
      chunk := Shl(chunk, widths.length, b);
      chunk := Or(chunk, numChunks) % Pow2(b);
    }

    /** DecodeHeader: a length beyond the buffer is a fatal error. */
    method DecodeHeader(chunk: nat) returns (ok: bool)
      requires Valid()
      modifies this`length, this`methodID, this`serviceID, this`channelID, this`phyPvt
      ensures Fields(phyPvt) == Decode(widths, chunk)
      ensures ok <==> length <= message.Length
      ensures ok ==> Valid()
    {
      var h := Decode(widths, chunk);
      length, methodID, serviceID, channelID, phyPvt := h.length, h.procedure, h.service, h.channel, h.pvt;
      ok := length <= message.Length;
    }
  }

  // ---------------------------------------------------------------------
  // A whole message, from typed values to typed values
  // ---------------------------------------------------------------------

  method AppendItem(m: Message, item: Item) returns (ok: bool)
    requires m.Valid() && WordFits(item)
    modifies m`writeIndex, m.message
    ensures m.Valid() && (ok <==> old(m.writeIndex) + Size(ShapeOf(item)) <= m.length)
    ensures m.Contents() == if ok then old(m.Contents()) + Marshal(item) else old(m.Contents())
  {
    match item
    case Word(value, width) => ok := m.AppendWord(value, width);
    case Block(bytes) => ok := m.AppendBytes(bytes);
  }

  /** Append values from the start of a message that has room for all of them. */
  method AppendItems(m: Message, items: seq<Item>)
    requires m.Valid() && Fitting(items) && Sizes(Shapes(items)) <= m.length
    modifies m`writeIndex, m.message
    ensures m.Valid() && m.Contents() == MarshalAll(items)
  {
    m.StartAppend();
    var i := 0;
    while i < |items|
      invariant 0 <= i <= |items| && m.Valid()
      invariant m.Contents() == MarshalAll(items[..i])
    {
      PrefixSnoc(items, i);
      var ok := AppendItem(m, items[i]);
      i := i + 1;
    }
    assert items[..|items|] == items;
  }

  lemma {:induction false} PrefixSnoc(items: seq<Item>, i: nat)
    requires i < |items|
    ensures MarshalAll(items[..i + 1]) == MarshalAll(items[..i]) + Marshal(items[i])
    ensures |MarshalAll(items[..i + 1])| <= Sizes(Shapes(items))
  {
    assert items[..i + 1][..i] == items[..i];
    SizesMono(items, i + 1);
  }

  lemma {:induction false} SizesMono(items: seq<Item>, i: nat)
    requires i <= |items|
    ensures |MarshalAll(items[..i])| <= |MarshalAll(items)|
    decreases |items|
  {
    if i == |items| {
      assert items[..i] == items;
    } else {
      var init := items[..|items| - 1];
      assert items[..i] == init[..i];
      SizesMono(init, i);
    }
  }

  method ExtractItem(m: Message, shape: Shape) returns (item: Item)
    requires m.Valid() && m.readIndex + Size(shape) <= m.message.Length
    modifies m`readIndex
    ensures m.Valid() && m.readIndex == old(m.readIndex) + Size(shape)
    ensures item == Unmarshal(shape, m.message[old(m.readIndex)..m.readIndex])
  {
    match shape
    case WordOf(width) =>
      var value := m.ExtractWord(width);
      item := Word(value, width);
    case BlockOf(count) =>
      var data := m.ExtractBytes(count);
      item := Block(data);
  }

  /** Extract values of the given types from the start of a message. */
  method ExtractItems(m: Message, shapes: seq<Shape>) returns (items: seq<Item>)
    requires m.Valid() && Sizes(shapes) <= m.message.Length
    modifies m`readIndex
    ensures m.Valid() && items == UnmarshalAll(shapes, m.message[..])
  {
    m.StartExtract();
    items := [];
    ghost var bs := m.message[..];
    var i := 0;
    while i < |shapes|
      invariant 0 <= i <= |shapes| && m.Valid()
      invariant Sizes(shapes[..i]) <= |bs| && m.readIndex == Sizes(shapes[..i])
      invariant items == UnmarshalAll(shapes[..i], bs)
    {
      ShapePrefix(shapes, i);
      var item := ExtractItem(m, shapes[i]);
      assert bs[Sizes(shapes[..i])..Sizes(shapes[..i + 1])] == m.message[Sizes(shapes[..i])..Sizes(shapes[..i + 1])];
      items := items + [item];
      i := i + 1;
    }
    assert shapes[..|shapes|] == shapes;
  }

  lemma {:induction false} ShapePrefix(shapes: seq<Shape>, i: nat)
    requires i < |shapes|
    ensures shapes[..i + 1][..i] == shapes[..i] && shapes[..i + 1][i] == shapes[i]
    ensures Sizes(shapes[..i + 1]) == Sizes(shapes[..i]) + Size(shapes[i]) <= Sizes(shapes)
    decreases |shapes|
  {
    assert shapes[..i + 1][..i] == shapes[..i];
    if i + 1 == |shapes| {
      assert shapes[..i + 1] == shapes;
    } else {
      var init := shapes[..|shapes| - 1];
      assert init[..i] == shapes[..i] && init[..i + 1] == shapes[..i + 1];
      ShapePrefix(init, i);
    }
  }

  /** The sending half: marshal the values, then take all the chunks. */
  method SendMessage(src: Message, items: seq<Item>, buffer: array<nat>) returns (n: nat)
    requires src.Valid() && src.length == Sizes(Shapes(items)) && Fitting(items)
    requires buffer as object != src.message as object
    requires RoundedLength(src) <= src.message.Length && ChunkCount(src) <= buffer.Length
    modifies src`writeIndex, src`readIndex, src.message, buffer
    ensures src.Valid() && n == ChunkCount(src) && src.length <= RoundedLength(src)
    ensures Unchunked(buffer[..n], src.widths.chunkBytes) == src.message[..RoundedLength(src)]
    ensures src.message[..src.length] == MarshalAll(items)
  {
    AppendItems(src, items);
    n := src.ExtractAllChunks(buffer);
    ChunksHold(src.length, src.widths.chunkBytes);
    ghost var bs := src.message[..];
    UnchunkedChunks(bs, src.widths.chunkBytes, n);
    assert bs[..RoundedLength(src)] == src.message[..RoundedLength(src)];
  }

  /** The length of a message in chunks, rounded up. */
  function ChunkCount(m: Message): nat
    requires ValidWidths(m.widths)
    reads m`length
  {
    NumChunks(m.length, m.widths.chunkBytes)
  }

  ghost function RoundedLength(m: Message): nat
    requires ValidWidths(m.widths)
    reads m`length
  {
    Times(m.widths.chunkBytes, ChunkCount(m))
  }

  lemma {:induction false} ChunksHold(length: nat, c: nat)
    requires c > 0
    ensures length <= Times(c, NumChunks(length, c))
  {
    ChunksCover(length, c, NumChunks(length, c));
  }

  /** Extracting types that the written bytes cover depends on those bytes only. */
  method ExtractWritten(m: Message, shapes: seq<Shape>) returns (items: seq<Item>)
    requires m.Valid() && Sizes(shapes) <= m.writeIndex
    modifies m`readIndex
    ensures m.Valid() && items == UnmarshalAll(shapes, m.Contents())
  {
    items := ExtractItems(m, shapes);
    ghost var bs := m.Contents();
    assert m.message[..] == bs + m.message[m.writeIndex..];
    UnmarshalPrefix(shapes, bs, m.message[m.writeIndex..]);
  }

  /** Start a received message: decode its header and append its chunks. */
  method AcceptMessage(dst: Message, header: nat, chunks: seq<nat>) returns (ok: bool)
    requires dst.Valid()
    modifies dst, dst.message
    ensures dst.Fields(dst.phyPvt) == Decode(dst.widths, header)
    ensures ok <==> dst.length <= dst.message.Length && Times(dst.widths.chunkBytes, |chunks|) <= dst.length
    ensures ok ==> dst.Valid() && dst.Contents() == Unchunked(chunks, dst.widths.chunkBytes)
  {
    ok := dst.DecodeHeader(header);
    if !ok { return; }
    dst.StartAppend();
    ok := dst.AppendChunks(chunks);
    if ok { assert dst.Contents() == [] + Unchunked(chunks, dst.widths.chunkBytes); }
  }

  /** The receiving half, for a header whose fields fit. */
  method ReceiveMessage(dst: Message, header: nat, chunks: seq<nat>, shapes: seq<Shape>, ghost h: Header)
    returns (items: seq<Item>)
    requires dst.Valid() && Fits(dst.widths, h) && header == Encode(dst.widths, h)
    requires Times(dst.widths.chunkBytes, |chunks|) == Received(dst.widths, h).length <= dst.message.Length
    requires Sizes(shapes) <= Received(dst.widths, h).length
    modifies dst, dst.message
    ensures dst.Valid() && dst.Fields(dst.phyPvt) == Received(dst.widths, h)
    ensures items == UnmarshalAll(shapes, Unchunked(chunks, dst.widths.chunkBytes))
  {
    FittingRoundTrip(dst.widths, h);
    var ok := AcceptMessage(dst, header, chunks);
    items := ExtractWritten(dst, shapes);
  }

  lemma {:induction false} FilledRoundTrip(items: seq<Item>, bs: seq<Byte>, length: nat)
    requires Fitting(items) && length == Sizes(Shapes(items)) <= |bs| && bs[..length] == MarshalAll(items)
    ensures UnmarshalAll(Shapes(items), bs) == items
  {
    assert bs == MarshalAll(items) + bs[length..];
    MarshalRoundTrip(items, bs[length..]);
  }

  /** A message with header fields that fit, filled with values and sent through chunks, arrives with
      the same identifiers and the same values; its length is rounded up to whole chunks, and the
      header's chunk count is the number of chunks extracted. */
  method Transfer(src: Message, dst: Message, pvt: nat, items: seq<Item>) returns (got: seq<Item>, n: nat)
    requires src.Valid() && dst.Valid() && src.widths == dst.widths && src != dst && src.message != dst.message
    requires src.length == Sizes(Shapes(items)) && Fitting(items) && Fits(src.widths, src.Fields(pvt))
    requires RoundedLength(src) <= src.message.Length && RoundedLength(src) <= dst.message.Length
    modifies src`writeIndex, src`readIndex, src.message, dst, dst.message
    ensures got == items
    ensures dst.channelID == src.channelID && dst.serviceID == src.serviceID && dst.methodID == src.methodID
    ensures dst.phyPvt == pvt && dst.length == RoundedLength(src)
    ensures n == ChunkCount(src)
  {
    var buffer := new nat[ChunkCount(src)];
    n := SendMessage(src, items, buffer);
    var header := src.EncodeHeader(pvt);
    var chunks := buffer[..n];
    FilledRoundTrip(items, Unchunked(chunks, src.widths.chunkBytes), src.length);
    got := ReceiveMessage(dst, header, chunks, Shapes(items), src.Fields(pvt));
  }

  /** Reading chunk after chunk stops exactly when all the chunks that hold a written byte are read. */
  lemma {:induction false} ChunksCover(written: nat, c: nat, n: nat)
    requires c > 0 && n <= NumChunks(written, c)
    ensures Times(c, n) < written <==> n < NumChunks(written, c)
  {
    var q, r := written / c, written % c;
    assert written == Times(c, q) + r;
    if n <= q {
      TimesMono(c, n, q);
      if n < q { TimesMono(c, n + 1, q); TimesNext(c, n); }
    } else {
      TimesNext(c, q);
    }
  }
}
