// Little-endian words, chunks and typed contents of UMF messages, as byte sequences
// (what the marshallers and demarshallers of umf-little-endian.h store and load).
module UmfBytes {
  import opened Arith
  import opened Common
  import opened UmfHeader

  // ---------------------------------------------------------------------
  // Words and chunks as bytes
  // ---------------------------------------------------------------------

  /** The low n bytes of a value, least significant first. */
  function LE(value: nat, n: nat): (bs: seq<Byte>)
    ensures |bs| == n
    decreases n
  {
    if n == 0 then [] else [value % 256] + LE(value / 256, n - 1)
  }

  function Value(bs: seq<Byte>): nat {
    if bs == [] then 0 else bs[0] + 256 * Value(bs[1..])
  }

  lemma {:induction false} ValueBound(bs: seq<Byte>)
    ensures Value(bs) < Pow2(8 * |bs|)
  {
    if bs != [] {
      ValueBound(bs[1..]);
      Pow2Bytes(|bs|);
    }
  }

  lemma {:induction false} Pow2Bytes(n: nat)
    requires n > 0
    ensures Pow2(8 * n) == 256 * Pow2(8 * (n - 1))
  {
    Pow2Add(8, 8 * (n - 1));
    assert Pow2(8) == 256;
  }

  /** Storing a value in n bytes and loading it gives it back exactly when it fits. */
  lemma {:induction false} LoadOfStore(value: nat, n: nat)
    ensures Value(LE(value, n)) == value <==> value < Pow2(8 * n)
    decreases n
  {
    if n == 0 {
    } else {
      var rest := LE(value / 256, n - 1);
      assert LE(value, n)[1..] == rest;
      LoadOfStore(value / 256, n - 1);
      Pow2Bytes(n);
      ValueBound(rest);
    }
  }

  lemma {:induction false} StoreOfLoad(bs: seq<Byte>)
    ensures LE(Value(bs), |bs|) == bs
  {
    if bs != [] { StoreOfLoad(bs[1..]); }
  }

  /** The first n chunks of c bytes each. */
  function Chunks(bs: seq<Byte>, c: nat, n: nat): (cs: seq<nat>)
    requires Times(c, n) <= |bs|
    ensures |cs| == n
    decreases n
  {
    if n == 0 then []
    else
      TimesNext(c, n - 1);
      Chunks(bs, c, n - 1) + [Value(bs[Times(c, n - 1)..Times(c, n)])]
  }

  /** The memory an array of chunks occupies. */
  function Unchunked(chunks: seq<nat>, c: nat): (bs: seq<Byte>)
    ensures |bs| == Times(c, |chunks|)
  {
    if chunks == [] then []
    else
      TimesNext(c, |chunks| - 1);
      Unchunked(chunks[..|chunks| - 1], c) + LE(chunks[|chunks| - 1], c)
  }

  lemma {:induction false} UnchunkedSnoc(chunks: seq<nat>, last: seq<Byte>, c: nat)
    requires |last| == c
    ensures Unchunked(chunks + [Value(last)], c) == Unchunked(chunks, c) + last
  {
    assert (chunks + [Value(last)])[..|chunks|] == chunks;
    StoreOfLoad(last);
  }

  lemma {:induction false} UnchunkedChunks(bs: seq<Byte>, c: nat, n: nat)
    requires Times(c, n) <= |bs|
    ensures Unchunked(Chunks(bs, c, n), c) == bs[..Times(c, n)]
    decreases n
  {
    if n > 0 {
      TimesNext(c, n - 1);
      var k := Times(c, n - 1);
      UnchunkedChunks(bs, c, n - 1);
      UnchunkedSnoc(Chunks(bs, c, n - 1), bs[k..k + c], c);
      assert bs[..k + c] == bs[..k] + bs[k..k + c];
    }
  }

  // ---------------------------------------------------------------------
  // Typed contents
  // ---------------------------------------------------------------------

  /** A word of a width in bytes (1, 2, 4 or 8, a chunk, or the count given to AppendUINT), or a
      block of raw bytes. */
  datatype Item = Word(value: nat, width: nat) | Block(bytes: seq<Byte>)

  datatype Shape = WordOf(width: nat) | BlockOf(count: nat)

  function Size(shape: Shape): nat { if shape.WordOf? then shape.width else shape.count }

  function ShapeOf(item: Item): Shape {
    if item.Word? then WordOf(item.width) else BlockOf(|item.bytes|)
  }

  function Marshal(item: Item): (bs: seq<Byte>)
    ensures |bs| == Size(ShapeOf(item))
  {
    if item.Word? then LE(item.value, item.width) else item.bytes
  }

  function Unmarshal(shape: Shape, bs: seq<Byte>): Item
    requires |bs| == Size(shape)
  {
    if shape.WordOf? then Word(Value(bs), shape.width) else Block(bs)
  }

  function Shapes(items: seq<Item>): (r: seq<Shape>)
    ensures |r| == |items|
  {
    if items == [] then [] else Shapes(items[..|items| - 1]) + [ShapeOf(items[|items| - 1])]
  }

  function Sizes(shapes: seq<Shape>): nat {
    if shapes == [] then 0 else Sizes(shapes[..|shapes| - 1]) + Size(shapes[|shapes| - 1])
  }

  function MarshalAll(items: seq<Item>): (bs: seq<Byte>)
    ensures |bs| == Sizes(Shapes(items))
  {
    if items == [] then []
    else
      var init := items[..|items| - 1];
      assert Shapes(items)[..|items| - 1] == Shapes(init);
      MarshalAll(init) + Marshal(items[|items| - 1])
  }

  function UnmarshalAll(shapes: seq<Shape>, bs: seq<Byte>): (items: seq<Item>)
    requires Sizes(shapes) <= |bs|
    ensures |items| == |shapes|
  {
    if shapes == [] then []
    else
      var init, last := shapes[..|shapes| - 1], shapes[|shapes| - 1];
      UnmarshalAll(init, bs) + [Unmarshal(last, bs[Sizes(init)..Sizes(shapes)])]
  }

  /** Words that fit the bytes they are stored in. */
  predicate WordFits(item: Item) { item.Word? ==> item.value < Pow2(8 * item.width) }

  predicate Fitting(items: seq<Item>) {
    forall i :: 0 <= i < |items| ==> WordFits(items[i])
  }

  lemma {:induction false} ItemRoundTrip(item: Item)
    ensures Unmarshal(ShapeOf(item), Marshal(item)) == item <==> WordFits(item)
  {
    if item.Word? { LoadOfStore(item.value, item.width); }
  }

  lemma {:induction false} ShapesInit(items: seq<Item>)
    requires items != []
    ensures Shapes(items)[..|items| - 1] == Shapes(items[..|items| - 1])
    ensures Shapes(items)[|items| - 1] == ShapeOf(items[|items| - 1])
  {}

  lemma {:induction false} UnmarshalPrefix(shapes: seq<Shape>, a: seq<Byte>, b: seq<Byte>)
    requires Sizes(shapes) <= |a|
    ensures UnmarshalAll(shapes, a + b) == UnmarshalAll(shapes, a)
  {
    if shapes != [] {
      var init := shapes[..|shapes| - 1];
      UnmarshalPrefix(init, a, b);
      assert (a + b)[Sizes(init)..Sizes(shapes)] == a[Sizes(init)..Sizes(shapes)];
    }
  }

  /** Reading with the same types gives back exactly what was written, whatever bytes follow, exactly
      when every word fits. */
  lemma {:induction false} MarshalRoundTrip(items: seq<Item>, tail: seq<Byte>)
    ensures Sizes(Shapes(items)) <= |MarshalAll(items) + tail|
    ensures UnmarshalAll(Shapes(items), MarshalAll(items) + tail) == items <==> Fitting(items)
  {
    UnmarshalPrefix(Shapes(items), MarshalAll(items), tail);
    MarshalExact(items);
  }

  lemma {:induction false} UnmarshalSnoc(items: seq<Item>, init: seq<Item>, last: Item)
    requires items == init + [last]
    ensures UnmarshalAll(Shapes(items), MarshalAll(items))
            == UnmarshalAll(Shapes(init), MarshalAll(init)) + [Unmarshal(ShapeOf(last), Marshal(last))]
  {
    assert items[..|items| - 1] == init;
    ShapesInit(items);
    UnmarshalPrefix(Shapes(init), MarshalAll(init), Marshal(last));
    assert MarshalAll(items)[Sizes(Shapes(init))..Sizes(Shapes(items))] == Marshal(last);
  }

  lemma {:induction false} MarshalExact(items: seq<Item>)
    ensures UnmarshalAll(Shapes(items), MarshalAll(items)) == items <==> Fitting(items)
  {
    if items != [] {
      var init, last := items[..|items| - 1], items[|items| - 1];
      assert items == init + [last];
      UnmarshalSnoc(items, init, last);
      MarshalExact(init);
      ItemRoundTrip(last);
      SameSnoc(UnmarshalAll(Shapes(init), MarshalAll(init)), init, Unmarshal(ShapeOf(last), Marshal(last)), last);
      FittingSnoc(items, init, last);
    }
  }

  lemma {:induction false} SameSnoc<T>(s: seq<T>, t: seq<T>, x: T, y: T)
    requires |s| == |t|
    ensures s + [x] == t + [y] <==> s == t && x == y
  {
    if s + [x] == t + [y] {
      assert (s + [x])[..|s|] == s && (t + [y])[..|t|] == t;
      assert (s + [x])[|s|] == x && (t + [y])[|t|] == y;
    }
  }

  lemma {:induction false} FittingSnoc(items: seq<Item>, init: seq<Item>, last: Item)
    requires items == init + [last]
    ensures Fitting(items) <==> Fitting(init) && WordFits(last)
  {
    if Fitting(items) {
      forall i | 0 <= i < |init| ensures WordFits(init[i]) { assert items[i] == init[i]; }
      assert items[|init|] == last;
    }
  }
}
