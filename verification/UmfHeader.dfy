// Bit-packed UMF message headers with symbolic field widths, and chunk rounding by masks
// (umf-little-endian.cpp and the mask arithmetic of umf-little-endian.h).
module UmfHeader {
  import opened Arith

  // ---------------------------------------------------------------------
  // Bits of natural numbers
  // ---------------------------------------------------------------------

  function Pow2(n: nat): (p: nat)
    ensures p > 0
  {
    if n == 0 then 1 else 2 * Pow2(n - 1)
  }

  /** Bitwise or and and. */
  function Or(x: nat, y: nat): nat
    decreases x + y
  {
    if x + y == 0 then 0 else (if x % 2 == 1 || y % 2 == 1 then 1 else 0) + 2 * Or(x / 2, y / 2)
  }

  function And(x: nat, y: nat): nat
    decreases x + y
  {
    if x + y == 0 then 0 else (if x % 2 == 1 && y % 2 == 1 then 1 else 0) + 2 * And(x / 2, y / 2)
  }

  lemma {:induction false} Pow2Add(m: nat, n: nat)
    ensures Pow2(m + n) == Pow2(m) * Pow2(n)
  {
    if m > 0 { Pow2Add(m - 1, n); MulShuffle(Pow2(m - 1), Pow2(n)); }
  }

  lemma {:induction false} MulShuffle(a: nat, b: nat)
    ensures (2 * a) * b == 2 * (a * b)
  {}

  lemma {:induction false} OrZero(y: nat)
    ensures Or(0, y) == y
  {
    if y > 0 { OrZero(y / 2); }
  }

  /** Or-ing a field into cleared low bits is addition. */
  lemma {:induction false} OrIntoShifted(x: nat, f: nat, w: nat)
    requires f < Pow2(w)
    ensures Or(x * Pow2(w), f) == x * Pow2(w) + f
    decreases w
  {
    if w == 0 {
      OrComm(x, 0);
      OrZero(x);
    } else if x * Pow2(w) + f > 0 {
      OrIntoShifted(x, f / 2, w - 1);
      HalfShifted(x, Pow2(w - 1));
    }
  }

  lemma {:induction false} HalfShifted(x: nat, p: nat)
    ensures x * (2 * p) / 2 == x * p && x * (2 * p) % 2 == 0
  {
    MulShuffle(p, x);
    assert x * (2 * p) == 2 * (x * p);
  }

  lemma {:induction false} OrComm(x: nat, y: nat)
    ensures Or(x, y) == Or(y, x)
    decreases x + y
  {
    if x + y > 0 { OrComm(x / 2, y / 2); }
  }

  /** Masking with 2^w - 1 is the remainder. */
  lemma {:induction false} AndMask(x: nat, w: nat)
    ensures And(x, Pow2(w) - 1) == x % Pow2(w)
    decreases w
  {
    if w == 0 {
      AndZero(x);
    } else {
      AndMask(x / 2, w - 1);
      ModDouble(x, Pow2(w - 1));
      assert (Pow2(w) - 1) / 2 == Pow2(w - 1) - 1 && (Pow2(w) - 1) % 2 == 1;
    }
  }

  lemma {:induction false} AndZero(x: nat)
    ensures And(x, 0) == 0
  {
    if x > 0 { AndZero(x / 2); }
  }

  lemma {:induction false} ModDouble(x: nat, p: nat)
    requires p > 0
    ensures x % (2 * p) == x % 2 + 2 * ((x / 2) % p)
  {
    var q, r := (x / 2) / p, (x / 2) % p;
    assert x / 2 == p * q + r;
    assert x == (2 * p) * q + (2 * r + x % 2);
    ModUnique(x, 2 * p, q, 2 * r + x % 2);
  }

  /** Masking with the complement of 2^k - 1, in an n-bit word, clears the low bits. */
  lemma {:induction false} AndClear(x: nat, k: nat, n: nat)
    requires k <= n && x < Pow2(n)
    ensures Pow2(k) <= Pow2(n)
    ensures And(x, Pow2(n) - Pow2(k)) == x - x % Pow2(k)
    decreases k
  {
    if k == 0 {
      AndMask(x, n);
      ModUnique(x, Pow2(n), 0, x);
    } else {
      AndClear(x / 2, k - 1, n - 1);
      ModDouble(x, Pow2(k - 1));
    }
  }

  // ---------------------------------------------------------------------
  // Headers
  // ---------------------------------------------------------------------

  /** Field widths in bits, and the size of a chunk. */
  datatype Widths = Widths(channel: nat, service: nat, procedure: nat, length: nat, chunkBytes: nat)

  function Bits(w: Widths): nat { 8 * w.chunkBytes }

  function FieldBits(w: Widths): nat { w.channel + w.service + w.procedure + w.length }

  /** The configurations that compile, with masks that fit an int and fields that fit a chunk. */
  predicate ValidWidths(w: Widths) {
    && (w.chunkBytes == 4 || w.chunkBytes == 8 || w.chunkBytes == 16)
    && w.channel < 31 && w.service < 31 && w.procedure < 31 && w.length < 31
    && FieldBits(w) <= Bits(w)
  }

  /** The decoded header fields: the bits private to the physical channel, the channel, service and
      method identifiers, and the length in bytes. */
  datatype Header = Header(pvt: nat, channel: nat, service: nat, procedure: nat, length: nat)

  function NumChunks(length: nat, chunkBytes: nat): nat
    requires chunkBytes > 0
  {
    if length % chunkBytes == 0 then length / chunkBytes else length / chunkBytes + 1
  }

  /** Shift left in a word of the given size. */
  function Shl(chunk: nat, width: nat, bits: nat): nat { (chunk * Pow2(width)) % Pow2(bits) }

  /** Shift a word of the given size left and or a field into it. */
  function PushField(chunk: nat, field: nat, width: nat, bits: nat): nat {
    Or(Shl(chunk, width, bits), field) % Pow2(bits)
  }

  function Encode(w: Widths, h: Header): nat
    requires ValidWidths(w)
  {
    var b := Bits(w);
    var channels := PushField(h.pvt % Pow2(b), h.channel, w.channel, b);
    var services := PushField(channels, h.service, w.service, b);
    var procedures := PushField(services, h.procedure, w.procedure, b);
    PushField(procedures, NumChunks(h.length, w.chunkBytes), w.length, b)
  }

  function Shr(x: nat, n: nat): nat { Quotient(x, Pow2(n)) }

  function Mask(x: nat, n: nat): nat { And(x, Pow2(n) - 1) }

  /** What a 32-bit field keeps. */
  function Word(x: nat): (r: nat)
    ensures r <= x && (r == x <==> x < 0x1_0000_0000)
  {
    x % 0x1_0000_0000
  }

  function Decode(w: Widths, chunk: nat): Header {
    var procedures := Shr(chunk, w.length);
    var services := Shr(procedures, w.procedure);
    var channels := Shr(services, w.service);
    Header(Shr(channels, w.channel), Mask(channels, w.channel), Mask(services, w.service),
           Mask(procedures, w.procedure), Word(Times(w.chunkBytes, Mask(chunk, w.length))))
  }

  /** What the receiver should see: the sender's header with the length rounded up to whole chunks. */
  function Received(w: Widths, h: Header): Header
    requires ValidWidths(w)
  {
    h.(length := Times(w.chunkBytes, NumChunks(h.length, w.chunkBytes)))
  }

  predicate Fits(w: Widths, h: Header)
    requires ValidWidths(w)
  {
    && h.pvt < Pow2(Bits(w) - FieldBits(w))
    && h.channel < Pow2(w.channel)
    && h.service < Pow2(w.service)
    && h.procedure < Pow2(w.procedure)
    && NumChunks(h.length, w.chunkBytes) < Pow2(w.length)
    && Times(w.chunkBytes, NumChunks(h.length, w.chunkBytes)) < 0x1_0000_0000
  }

  lemma {:induction false} Pow2Mono(m: nat, n: nat)
    requires m <= n
    ensures Pow2(m) <= Pow2(n)
  {
    if m < n { Pow2Mono(m, n - 1); }
  }

  lemma {:induction false} ShiftedBound(x: nat, f: nat, p: nat, q: nat)
    requires x < q && f < p
    ensures x * p + f < q * p
  {
    MulMono(p, x + 1, q);
  }

  /** A field that fits, pushed under a value that leaves room for it, comes out again. */
  lemma {:induction false} PushPop(x: nat, f: nat, room: nat, width: nat, bits: nat)
    requires x < Pow2(room) && f < Pow2(width) && room + width <= bits
    ensures var r := PushField(x, f, width, bits);
            && r < Pow2(room + width)
            && Mask(r, width) == f && Shr(r, width) == x
  {
    PushFits(x, f, room, width, bits);
    var r := PushField(x, f, width, bits);
    AndMask(r, width);
    Popped(x, f, Pow2(width));
  }

  lemma {:induction false} Popped(x: nat, f: nat, p: nat)
    requires f < p
    ensures Quotient(x * p + f, p) == x && (x * p + f) % p == f
  {
    assert x * p == p * x;
    ModUnique(x * p + f, p, x, f);
  }

  /** With room for it, nothing of the shifted value or of the field is cut off. */
  lemma {:induction false} PushFits(x: nat, f: nat, room: nat, width: nat, bits: nat)
    requires x < Pow2(room) && f < Pow2(width) && room + width <= bits
    ensures PushField(x, f, width, bits) == x * Pow2(width) + f < Pow2(room + width)
  {
    Pow2Add(room, width);
    Pow2Mono(room + width, bits);
    ShiftedBound(x, f, Pow2(width), Pow2(room));
    SmallMod(x * Pow2(width), Pow2(bits));
    OrIntoShifted(x, f, width);
    SmallMod(x * Pow2(width) + f, Pow2(bits));
  }

  lemma {:induction false} MaskedFits(x: nat, width: nat)
    ensures Mask(x, width) < Pow2(width)
  {
    AndMask(x, width);
  }

  lemma {:induction false} ShiftedFits(x: nat, width: nat, bits: nat)
    requires width <= bits && x < Pow2(bits)
    ensures Shr(x, width) < Pow2(bits - width)
  {
    Pow2Add(bits - width, width);
    if x / Pow2(width) >= Pow2(bits - width) {
      MulMono(Pow2(width), Pow2(bits - width), x / Pow2(width));
    }
  }

  /** Whatever is decoded fits its field. */
  lemma {:induction false} DecodedFits(w: Widths, chunk: nat)
    requires ValidWidths(w) && chunk < Pow2(Bits(w))
    ensures var h := Decode(w, chunk);
            && h.pvt < Pow2(Bits(w) - FieldBits(w)) && h.channel < Pow2(w.channel)
            && h.service < Pow2(w.service) && h.procedure < Pow2(w.procedure)
    ensures Mask(chunk, w.length) < Pow2(w.length)
  {
    var b := Bits(w);
    MaskedFits(chunk, w.length);
    ShiftedFits(chunk, w.length, b);
    var procedures := Shr(chunk, w.length);
    MaskedFits(procedures, w.procedure);
    ShiftedFits(procedures, w.procedure, b - w.length);
    var services := Shr(procedures, w.procedure);
    MaskedFits(services, w.service);
    ShiftedFits(services, w.service, b - w.length - w.procedure);
    var channels := Shr(services, w.service);
    MaskedFits(channels, w.channel);
    ShiftedFits(channels, w.channel, b - w.length - w.procedure - w.service);
  }

  lemma {:induction false} FittingRoundTrip(w: Widths, h: Header)
    requires ValidWidths(w) && Fits(w, h)
    ensures Decode(w, Encode(w, h)) == Received(w, h)
  {
    var b := Bits(w);
    var room := b - FieldBits(w);
    Pow2Mono(room, b);
    ModUnique(h.pvt, Pow2(b), 0, h.pvt);
    PushPop(h.pvt, h.channel, room, w.channel, b);
    var channels := PushField(h.pvt, h.channel, w.channel, b);
    PushPop(channels, h.service, room + w.channel, w.service, b);
    var services := PushField(channels, h.service, w.service, b);
    PushPop(services, h.procedure, room + w.channel + w.service, w.procedure, b);
    var procedures := PushField(services, h.procedure, w.procedure, b);
    PushPop(procedures, NumChunks(h.length, w.chunkBytes), room + w.channel + w.service + w.procedure, w.length, b);
  }

  lemma {:induction false} EncodedIsWord(w: Widths, h: Header)
    requires ValidWidths(w)
    ensures Encode(w, h) < Pow2(Bits(w))
  {}

  lemma {:induction false} ChunkBytesOrder(c: nat, a: nat, b: nat)
    requires c == 4 || c == 8 || c == 16
    requires Times(c, a) <= Times(c, b)
    ensures a <= b
  {}

  /** The header round trip: the receiver sees the sender's fields, with the length rounded up to
      whole chunks, exactly when every field fits its width and the rounded length fits 32 bits. */
  lemma {:induction false} HeaderRoundTrip(w: Widths, h: Header)
    requires ValidWidths(w)
    ensures Decode(w, Encode(w, h)) == Received(w, h)
            <==> Fits(w, h)
  {
    if Fits(w, h) {
      FittingRoundTrip(w, h);
    } else if Decode(w, Encode(w, h)) == Received(w, h) {
      EncodedIsWord(w, h);
      DecodedFits(w, Encode(w, h));
      ChunkBytesOrder(w.chunkBytes, NumChunks(h.length, w.chunkBytes), Mask(Encode(w, h), w.length));
    }
  }

  // ---------------------------------------------------------------------
  // Three ways of rounding to chunks
  // ---------------------------------------------------------------------

  /** The mask of ExtractChunks: in a word of the given bits (32 in the code), the bits below the chunk
      size are cleared. */
  function RoundByMask(length: nat, chunkBytes: nat, bits: nat): nat
    requires 0 < chunkBytes <= Pow2(bits)
  {
    And((length + chunkBytes - 1) % Pow2(bits), Pow2(bits) - chunkBytes)
  }

  function LogChunk(chunkBytes: nat): nat { if chunkBytes == 4 then 2 else if chunkBytes == 8 then 3 else 4 }

  lemma {:induction false} ChunkIsPower(chunkBytes: nat)
    requires chunkBytes == 4 || chunkBytes == 8 || chunkBytes == 16
    ensures Pow2(LogChunk(chunkBytes)) == chunkBytes
  {
    assert Pow2(2) == 4 && Pow2(3) == 8 && Pow2(4) == 16;
  }

  lemma {:induction false} CeilByClearing(length: nat, c: nat)
    requires c > 0
    ensures (length + c - 1) - (length + c - 1) % c == Times(c, NumChunks(length, c))
  {
    var q, r := length / c, length % c;
    assert length == c * q + r;
    if r == 0 {
      ModUnique(length + c - 1, c, q, c - 1);
    } else {
      assert c * (q + 1) == c * q + c;
      ModUnique(length + c - 1, c, q + 1, r - 1);
    }
  }

  /** Rounding by the mask is rounding up to whole chunks, as long as the sum fits in the word. */
  lemma {:induction false} MaskRoundsUp(length: nat, chunkBytes: nat, bits: nat)
    requires chunkBytes == 4 || chunkBytes == 8 || chunkBytes == 16
    requires length + chunkBytes - 1 < Pow2(bits) && bits >= 4
    ensures chunkBytes <= Pow2(bits)
    ensures RoundByMask(length, chunkBytes, bits) == Times(chunkBytes, NumChunks(length, chunkBytes))
  {
    var sum := length + chunkBytes - 1;
    SmallMod(sum, Pow2(bits));
    AndClearChunk(sum, chunkBytes, bits);
    CeilByClearing(length, chunkBytes);
  }

  lemma {:induction false} AndClearChunk(x: nat, c: nat, n: nat)
    requires (c == 4 || c == 8 || c == 16) && x < Pow2(n) && n >= 4
    ensures c <= Pow2(n) && And(x, Pow2(n) - c) == x - x % c
  {
    ChunkIsPower(c);
    AndClear(x, LogChunk(c), n);
  }
}
