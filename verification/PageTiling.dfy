// Cutting a user buffer into pages for scatter-gather DMA: the table of bluenoc_read and
// bluenoc_write, and the list of build_dma_list_26.
module PageTiling {
  import Arith

  /** Bytes [offset, offset + length) of one page. */
  datatype Entry = Entry(page: nat, offset: nat, length: nat)

  // ---------------------------------------------------------------------
  // Division by the page size
  // ---------------------------------------------------------------------

  lemma {:induction false} MulMinus(p: int, q: int, size: int)
    ensures (p - q) * size == p * size - q * size
  {}

  lemma {:induction false} DivUnique(x: nat, size: nat, q: nat, r: nat)
    requires size > 0 && x == q * size + r && r < size
    ensures x / size == q && x % size == r
  {
    Arith.ModUnique(x, size, q, r);
  }

  lemma {:induction false} DivAdd(k: nat, x: nat, size: nat)
    requires size > 0
    ensures (k * size + x) / size == k + x / size
    ensures (k * size + x) % size == x % size
  {
    var q, r := x / size, x % size;
    assert x == q * size + r;
    assert (k + q) * size == k * size + q * size;
    DivUnique(k * size + x, size, k + q, r);
  }

  // ---------------------------------------------------------------------
  // The tiling
  // ---------------------------------------------------------------------

  /** count bytes from the given page and offset on, page by page. */
  function Tiles(page: nat, offset: nat, count: nat, size: nat): seq<Entry>
    requires offset < size
    decreases count
  {
    if count == 0 then []
    else if count <= size - offset then [Entry(page, offset, count)]
    else [Entry(page, offset, size - offset)] + Tiles(page + 1, 0, count - (size - offset), size)
  }

  function TilesOf(buf: nat, count: nat, size: nat): seq<Entry>
    requires size > 0
  {
    Tiles(buf / size, buf % size, count, size)
  }

  ghost function AddressesOf(e: Entry, size: nat): seq<int> {
    seq(e.length, i requires 0 <= i < e.length => e.page * size + e.offset + i)
  }

  ghost function Addresses(es: seq<Entry>, size: nat): seq<int> {
    if es == [] then [] else AddressesOf(es[0], size) + Addresses(es[1..], size)
  }

  ghost function Range(start: int, count: nat): seq<int> {
    seq(count, i requires 0 <= i < count => start + i)
  }

  lemma {:induction false} RangeSplit(start: int, a: nat, b: nat)
    ensures Range(start, a) + Range(start + a, b) == Range(start, a + b)
  {}

  lemma {:induction false} TilesAddresses(page: nat, offset: nat, count: nat, size: nat)
    requires offset < size
    ensures Addresses(Tiles(page, offset, count, size), size) == Range(page * size + offset, count)
    decreases count
  {
    var start, len := page * size + offset, size - offset;
    if count == 0 {
    } else if count <= len {
      assert Tiles(page, offset, count, size)[1..] == [];
      assert AddressesOf(Entry(page, offset, count), size) == Range(start, count);
      assert Range(start, count) + [] == Range(start, count);
    } else {
      var rest := Tiles(page + 1, 0, count - len, size);
      TilesAddresses(page + 1, 0, count - len, size);
      assert Tiles(page, offset, count, size)[1..] == rest;
      assert AddressesOf(Entry(page, offset, len), size) == Range(start, len);
      assert (page + 1) * size + 0 == start + len;
      RangeSplit(start, len, count - len);
    }
  }

  /** For every buffer and page size, the entries name exactly the addresses of the buffer, in order:
      no gap, no overlap, nothing else. */
  lemma {:induction false} TilingExact(buf: nat, count: nat, size: nat)
    requires size > 0
    ensures Addresses(TilesOf(buf, count, size), size) == Range(buf, count)
  {
    TilesAddresses(buf / size, buf % size, count, size);
    assert buf == buf / size * size + buf % size;
  }

  /** No entry is empty or crosses a page. */
  lemma {:induction false} TilesWithinPages(page: nat, offset: nat, count: nat, size: nat)
    requires offset < size
    ensures forall e :: e in Tiles(page, offset, count, size) ==> 1 <= e.length && e.offset + e.length <= size
    decreases count
  {
    if count > size - offset {
      TilesWithinPages(page + 1, 0, count - (size - offset), size);
    }
  }

  /** How many entries there are: the number PAGE_COUNT computes, and the one the driver does. */
  lemma {:induction false} TilesCount(page: nat, offset: nat, count: nat, size: nat)
    requires offset < size && count > 0
    ensures |Tiles(page, offset, count, size)| == (offset + count - 1) / size + 1
    decreases count
  {
    if count <= size - offset {
      DivUnique(offset + count - 1, size, 0, offset + count - 1);
    } else {
      var left := count - (size - offset);
      TilesCount(page + 1, 0, left, size);
      DivAdd(1, left - 1, size);
      assert offset + count - 1 == 1 * size + (left - 1);
    }
  }

  lemma {:induction false} PageCountIsDriverCount(buf: nat, count: nat, size: nat)
    requires size > 0 && count > 0
    ensures PageCount(buf, count, size) == |TilesOf(buf, count, size)|
    ensures (buf + count - 1) / size - buf / size + 1 == |TilesOf(buf, count, size)|
  {
    var page, offset := buf / size, buf % size;
    TilesCount(page, offset, count, size);
    DivAdd(1, offset + count - 1, size);
    assert offset + count + size - 1 == 1 * size + (offset + count - 1);
    DivAdd(page, offset + count - 1, size);
    assert buf == page * size + offset;
  }

  /** PAGE_COUNT. */
  function PageCount(buf: nat, count: nat, size: nat): nat
    requires size > 0
  {
    (buf % size + count + size - 1) / size
  }

  /** The entries one by one: a first piece, whole pages, and what is left. */
  lemma {:induction false} TilesAt(page: nat, offset: nat, count: nat, size: nat, i: nat)
    requires offset < size && i < |Tiles(page, offset, count, size)|
    ensures var n := |Tiles(page, offset, count, size)|;
            var done := if i == 0 then 0 else size - offset + (i - 1) * size;
            && done < count
            && Tiles(page, offset, count, size)[i]
            == Entry(page + i, if i == 0 then offset else 0,
                     if i < n - 1 then (if i == 0 then size - offset else size) else count - done)
    decreases count
  {
    if i > 0 {
      TilesAt(page + 1, 0, count - (size - offset), size, i - 1);
      assert i > 1 ==> size + (i - 2) * size == (i - 1) * size;
    }
  }

  // ---------------------------------------------------------------------
  // The driver's table
  // ---------------------------------------------------------------------

  datatype Table = Table(entries: seq<Entry>) | Fault

  const MAX_PAGES := 4096
  const ALIGNMENT := 128

  /** The page arithmetic of bluenoc_read and bluenoc_write for a non-empty transfer. */
  method PageArithmetic(buf: nat, count: nat, size: nat)
    returns (first: nat, offset: nat, numPages: nat, firstLen: nat, lastLen: nat)
    requires size > 0 && count > 0
    ensures first == buf / size && offset == buf % size && offset < size
    ensures numPages == |TilesOf(buf, count, size)|
    ensures firstLen == if numPages == 1 then count else size - offset
    ensures numPages > 1 ==> lastLen == count - (size - offset + (numPages - 2) * size)
  {
    DriverPages(buf, count, size);
    var firstPage := buf - buf % size;
    var lastPage := (buf + count - 1) - (buf + count - 1) % size;
    offset := buf % size;
    first := firstPage / size;
    numPages := lastPage / size - firstPage / size + 1;
    firstLen := if numPages == 1 then count else size - offset;
    lastLen := LengthOfLast(buf, count, size);
  }

  method LengthOfLast(buf: nat, count: nat, size: nat) returns (lastLen: nat)
    requires size > 0 && count > 0
    ensures var n := |TilesOf(buf, count, size)|;
            n > 1 ==> lastLen == count - (size - buf % size + (n - 2) * size)
  {
    lastLen := (buf + count) % size;
    if lastLen == 0 { lastLen := size; }
    if |TilesOf(buf, count, size)| > 1 { LastLength(buf, count, size); }
  }

  /** The checks and the table. */
  method BuildTable(buf: nat, count: nat, size: nat) returns (t: Table)
    requires size > 0 && count > 0
    ensures t.Fault? <==> |TilesOf(buf, count, size)| > MAX_PAGES || (buf % size) % ALIGNMENT != 0
    ensures t.Table? ==> t.entries == TilesOf(buf, count, size)
  {
    var first, offset, numPages, firstLen, lastLen := PageArithmetic(buf, count, size);
    if numPages > MAX_PAGES { return Fault; }
    if offset % ALIGNMENT != 0 { return Fault; }
    var entries := FillTable(first, offset, count, size, numPages, firstLen, lastLen);
    t := Table(entries);
  }

  method FillTable(first: nat, offset: nat, count: nat, size: nat, numPages: nat, firstLen: nat, lastLen: nat)
    returns (entries: seq<Entry>)
    requires offset < size && count > 0 && numPages == |Tiles(first, offset, count, size)|
    requires firstLen == if numPages == 1 then count else size - offset
    requires numPages > 1 ==> lastLen == count - (size - offset + (numPages - 2) * size)
    ensures entries == Tiles(first, offset, count, size)
  {
    ghost var tiles := Tiles(first, offset, count, size);
    entries := [Entry(first, offset, firstLen)];
    TilesAt(first, offset, count, size, 0);
    var n := 1;
    if numPages > 2 {
      while n < numPages - 1
        invariant 1 <= n <= numPages - 1 && entries == tiles[..n]
      {
        TilesAt(first, offset, count, size, n);
        entries := entries + [Entry(first + n, 0, size)];
        n := n + 1;
      }
    }
    if numPages > 1 {
      TilesAt(first, offset, count, size, numPages - 1);
      entries := entries + [Entry(first + numPages - 1, 0, lastLen)];
    }
    assert entries == tiles;
  }

  lemma {:induction false} DriverPages(buf: nat, count: nat, size: nat)
    requires size > 0 && count > 0
    ensures (buf - buf % size) / size == buf / size
    ensures ((buf + count - 1) - (buf + count - 1) % size) / size - buf / size + 1 == |TilesOf(buf, count, size)|
  {
    PageCountIsDriverCount(buf, count, size);
    PageStart(buf, size);
    PageStart(buf + count - 1, size);
  }

  lemma {:induction false} PageStart(x: nat, size: nat)
    requires size > 0
    ensures (x - x % size) / size == x / size
  {
    assert x - x % size == x / size * size;
    DivUnique(x - x % size, size, x / size, 0);
  }

  /** The length of the last piece when there are several. */
  lemma {:induction false} LastLength(buf: nat, count: nat, size: nat)
    requires size > 0 && count > 0 && |TilesOf(buf, count, size)| > 1
    ensures var n := |TilesOf(buf, count, size)|;
            var rest := count - (size - buf % size + (n - 2) * size);
            (if (buf + count) % size == 0 then size else (buf + count) % size) == rest
  {
    var page, offset, n := buf / size, buf % size, |TilesOf(buf, count, size)|;
    var rest := count - (size - offset + (n - 2) * size);
    TilesAt(page, offset, count, size, n - 1);
    TilesWithinPages(page, offset, count, size);
    assert TilesOf(buf, count, size)[n - 1].length == rest;
    EndOfBuffer(page, offset, count, size, n);
    RestOfPage(buf + count, size, page + n - 1, rest);
  }

  lemma {:induction false} EndOfBuffer(page: nat, offset: nat, count: nat, size: nat, n: nat)
    requires n > 1
    ensures page * size + offset + count == (page + n - 1) * size + (count - (size - offset + (n - 2) * size))
  {
    MulMinus(page + n - 1, page, size);
    MulMinus(n - 1, 1, size);
  }

  lemma {:induction false} RestOfPage(x: nat, size: nat, q: nat, rest: nat)
    requires x == q * size + rest && 1 <= rest <= size
    ensures rest == if x % size == 0 then size else x % size
  {
    if rest == size {
      MulMinus(q + 1, q, size);
      DivUnique(x, size, q + 1, 0);
    } else {
      DivUnique(x, size, q, rest);
    }
  }

  // ---------------------------------------------------------------------
  // The list of build_dma_list_26
  // ---------------------------------------------------------------------

  /** The same table, counted down from the total length; the caller passes PAGE_COUNT. */
  method BuildDmaList(buf: nat, total: nat, size: nat, pageCount: nat) returns (entries: seq<Entry>)
    requires size > 0 && total > 0 && pageCount == PageCount(buf, total, size)
    ensures entries == TilesOf(buf, total, size)
  {
    PageCountIsDriverCount(buf, total, size);
    entries := FillDmaList(buf / size, buf % size, total, size, pageCount);
  }

  method FillDmaList(page: nat, offset: nat, total: nat, size: nat, pageCount: nat) returns (entries: seq<Entry>)
    requires offset < size && total > 0 && pageCount == |Tiles(page, offset, total, size)|
    ensures entries == Tiles(page, offset, total, size)
  {
    ghost var tiles := Tiles(page, offset, total, size);
    TilesAt(page, offset, total, size, 0);
    if pageCount > 1 {
      var left: int := total - (size - offset);
      entries := [Entry(page, offset, size - offset)];
      var i := 1;
      while i < pageCount
        invariant 1 <= i <= pageCount && entries == tiles[..i]
        invariant left == total - (size - offset) - (i - 1) * size
      {
        PieceAt(page, offset, total, size, i);
        entries := entries + [Entry(page + i, 0, if left < size then left else size)];
        left := left - size;
        MulMinus(i, i - 1, size);
        i := i + 1;
      }
    } else {
      entries := [Entry(page, offset, total)];
    }
    assert entries == tiles;
  }

  lemma {:induction false} PieceAt(page: nat, offset: nat, count: nat, size: nat, i: nat)
    requires offset < size && 0 < i < |Tiles(page, offset, count, size)|
    ensures var left := count - (size - offset) - (i - 1) * size;
            left >= 0 && Tiles(page, offset, count, size)[i] == Entry(page + i, 0, if left < size then left else size)
  {
    TilesAt(page, offset, count, size, i);
    TilesWithinPages(page, offset, count, size);
    assert Tiles(page, offset, count, size)[i].length <= size;
    if i < |Tiles(page, offset, count, size)| - 1 {
      MiddleOrLast(page, offset, count, size, i);
    }
  }

  /** A piece that is not the last leaves more than a page to go. */
  lemma {:induction false} MiddleOrLast(page: nat, offset: nat, count: nat, size: nat, i: nat)
    requires offset < size && 0 < i < |Tiles(page, offset, count, size)| - 1
    ensures count - (size - offset) - (i - 1) * size > size
  {
    TilesAt(page, offset, count, size, i + 1);
    assert size - offset + i * size == size - offset + (i - 1) * size + size;
  }

  // ---------------------------------------------------------------------
  // Marking the pages a read has modified
  // ---------------------------------------------------------------------

  /** Where the bytes of page n of the transfer begin. */
  function PageStartsAt(n: nat, firstLen: nat, size: nat): nat {
    if n == 0 then 0 else firstLen + (n - 1) * size
  }

  lemma {:induction false} StartsGrow(n: nat, m: nat, firstLen: nat, size: nat)
    requires n <= m
    ensures PageStartsAt(n, firstLen, size) <= PageStartsAt(m, firstLen, size)
    decreases m - n
  {
    if n < m {
      StartsGrow(n, m - 1, firstLen, size);
      assert m > 1 ==> (m - 1) * size == (m - 2) * size + size;
    }
  }

  /** Of the pages that may be marked, exactly those holding one of the first `moved` bytes are. */
  method MarkDirty(reserved: seq<bool>, firstLen: nat, size: nat, moved: nat) returns (dirty: seq<bool>)
    requires reserved != []
    ensures |dirty| == |reserved|
    ensures forall n :: 0 <= n < |dirty| ==> (dirty[n] <==> !reserved[n] && PageStartsAt(n, firstLen, size) < moved)
  {
    var numPages, left := |reserved|, moved;
    dirty := seq(numPages, i => false);
    var n := 0;
    while n < numPages
      invariant 0 <= n <= numPages && |dirty| == numPages
      invariant n < numPages ==> PageStartsAt(n, firstLen, size) + left == moved
      invariant 0 < n < numPages ==> left > 0
      invariant forall k :: 0 <= k < n ==> (dirty[k] <==> !reserved[k] && PageStartsAt(k, firstLen, size) < moved)
      invariant forall k :: n <= k < numPages ==> !dirty[k]
    {
      if left > 0 && !reserved[n] {
        dirty := dirty[n := true];
      }
      var here := if n == 0 then firstLen else size;
      assert n > 0 ==> n * size == (n - 1) * size + size;
      if n < numPages - 1 || n == 0 {
        if left <= here {
          forall k | n < k < numPages
            ensures PageStartsAt(k, firstLen, size) >= moved
          {
            StartsGrow(n + 1, k, firstLen, size);
          }
          return;
        }
        left := left - here;
      }
      n := n + 1;
    }
  }
}
