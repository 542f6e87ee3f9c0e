/**
 The multi-stream file of a Windows PDB: a stream is a list of pages, and the directory,
 itself a stream, lists the pages of every stream.
 */
module Msf {
  import opened Bytes

  // ---------------------------------------------------------------- pages

  /** The number of pages for a size, in unbounded arithmetic. */
  function PagesFor(size: nat, pageSize: nat): (n: nat)
    requires pageSize > 0
  {
    (size + pageSize - 1) / pageSize
  }

  /** The page count is the least one whose pages hold the size. */
  lemma PagesForExact(size: nat, pageSize: nat)
    requires pageSize > 0
    ensures PagesFor(size, pageSize) * pageSize >= size
    ensures forall n: nat | n * pageSize >= size :: PagesFor(size, pageSize) <= n
  {
    var q := PagesFor(size, pageSize);
    assert q * pageSize <= size + pageSize - 1 < (q + 1) * pageSize;
    assert (q + 1) * pageSize == q * pageSize + pageSize == (q - 1) * pageSize + 2 * pageSize;
    forall n: nat | n * pageSize >= size ensures q <= n {
      MulCancel(q - 1, n, pageSize);
    }
  }

  lemma MulCancel(a: int, b: int, c: nat)
    requires a * c < b * c
    ensures a < b
  {
    assert b <= a ==> b * c <= a * c;
  }

  lemma QuotientNat(n: nat, d: nat)
    requires d > 0
    ensures n / d >= 0
  {
    assert n == (n / d) * d + n % d && n % d < d;
  }

  /** PagesFromSize: the sum wraps, and the division truncates. */
  function PagesFromSize(size: int, pageSize: nat): int
    requires pageSize > 0
  {
    var sum := Wrap32(size + pageSize - 1);
    if sum >= 0 then sum / pageSize else -(-sum / pageSize)
  }

  /** Whether the sum stays in 32 bits. */
  predicate SizeFits(size: int, pageSize: nat) {
    size + pageSize - 1 < INT32_LIMIT
  }

  /** The page count of a positive size is right exactly when the sum stays in 32 bits; else it
      is not positive. */
  lemma PagesFromSizeExact(size: nat, pageSize: nat)
    requires 0 < size < INT32_LIMIT && 0 < pageSize < INT32_LIMIT
    ensures PagesFromSize(size, pageSize) == PagesFor(size, pageSize) > 0 <==> SizeFits(size, pageSize)
    ensures PagesFromSize(size, pageSize) <= 0 <==> !SizeFits(size, pageSize)
  {
    PagesForExact(size, pageSize);
    if !SizeFits(size, pageSize) {
      var sum := size + pageSize - 1 - UINT32_LIMIT;
      assert Wrap32(size + pageSize - 1) == sum < 0;
      QuotientNat(-sum, pageSize);
    }
  }

  /** The division goes towards zero, on both sides. */
  lemma PagesTruncate(size: int, pageSize: nat)
    requires pageSize > 0
    ensures var sum, q := Wrap32(size + pageSize - 1), PagesFromSize(size, pageSize);
      && (sum >= 0 ==> 0 <= q && q * pageSize <= sum < (q + 1) * pageSize)
      && (sum <= 0 ==> q <= 0 && (q - 1) * pageSize < sum <= q * pageSize)
  {
    var sum := Wrap32(size + pageSize - 1);
    if sum >= 0 {
      Divided(sum, pageSize);
    } else {
      Divided(-sum, pageSize);
      var p := -sum / pageSize;
      assert (-p - 1) * pageSize == -((p + 1) * pageSize) && -p * pageSize == -(p * pageSize);
    }
  }

  lemma Divided(n: nat, d: nat)
    requires d > 0
    ensures 0 <= n / d && (n / d) * d <= n < (n / d + 1) * d
    ensures n == 0 ==> n / d == 0
  {
    QuotientNat(n, d);
    assert n == (n / d) * d + n % d;
    assert (n / d + 1) * d == (n / d) * d + d;
  }

  /** The number of root pages that the caller of the directory reads. */
  function RootCount(directorySize: nat, pageSize: nat): nat
    requires pageSize > 0
  {
    (PagesFor(directorySize, pageSize) * 4 + pageSize - 1) / pageSize
  }

  /** `roots` pages of page numbers cover a directory of this size, and fewer do not. */
  ghost predicate LeastRoots(directorySize: nat, pageSize: nat, roots: nat)
    requires pageSize > 0
  {
    && roots * (pageSize / 4) >= PagesFor(directorySize, pageSize)
    && forall r: nat | r * (pageSize / 4) >= PagesFor(directorySize, pageSize) :: roots <= r
  }

  lemma RootCountLeast(directorySize: nat, pageSize: nat)
    requires pageSize > 0 && pageSize % 4 == 0
    ensures LeastRoots(directorySize, pageSize, RootCount(directorySize, pageSize))
  {
    var n, perPage := PagesFor(directorySize, pageSize), pageSize / 4;
    var roots := RootCount(directorySize, pageSize);
    PagesForExact(n * 4, pageSize);
    assert roots == PagesFor(n * 4, pageSize);
    RootBytes(roots, perPage, n, pageSize);
    forall r: nat | r * perPage >= n ensures roots <= r {
      RootBytes(r, perPage, n, pageSize);
    }
  }

  /** Roots cover a page list exactly when their bytes do. */
  lemma RootBytes(r: nat, perPage: nat, n: nat, pageSize: nat)
    requires pageSize == 4 * perPage
    ensures r * perPage >= n <==> r * pageSize >= n * 4
  {
    assert r * (4 * perPage) == 4 * (r * perPage);
  }

  /** The formula is right for every directory exactly when pages hold whole numbers of page
      numbers. */
  lemma RootCountExact(pageSize: nat)
    requires pageSize > 0
    ensures (forall size: nat :: LeastRoots(size, pageSize, RootCount(size, pageSize))) <==> pageSize % 4 == 0
  {
    if pageSize % 4 == 0 {
      forall size: nat ensures LeastRoots(size, pageSize, RootCount(size, pageSize)) {
        RootCountLeast(size, pageSize);
      }
    } else {
      FullPageMissed(pageSize);
    }
  }

  lemma FullPageMissed(pageSize: nat)
    requires pageSize % 4 != 0
    ensures !LeastRoots(pageSize * pageSize, pageSize, RootCount(pageSize * pageSize, pageSize))
  {
    var size := pageSize * pageSize;
    Quotient(pageSize, pageSize);
    assert PagesFor(size, pageSize) == pageSize;
    Quotient(4, pageSize);
    assert pageSize * 4 + pageSize - 1 == 4 * pageSize + pageSize - 1;
    assert RootCount(size, pageSize) == 4;
    assert 4 * (pageSize / 4) < pageSize;
  }

  lemma Quotient(q: nat, d: nat)
    requires d > 0
    ensures (q * d + d - 1) / d == q
  {
    var r := (q * d + d - 1) / d;
    assert r * d <= q * d + d - 1 < (r + 1) * d;
    assert (r + 1) * d == r * d + d && (q + 1) * d == q * d + d;
    MulCancel(r, q + 1, d);
    MulCancel(q, r + 1, d);
  }

  // ---------------------------------------------------------------- the flat stream

  /** The number of bytes of `n` pages: the product, built up page by page. */
  function Span(n: nat, pageSize: nat): nat {
    if n == 0 then 0 else Span(n - 1, pageSize) + pageSize
  }

  lemma {:induction false} SpanIsProduct(n: nat, pageSize: nat)
    ensures Span(n, pageSize) == n * pageSize
  {
    if n > 0 {
      SpanIsProduct(n - 1, pageSize);
      assert n * pageSize == (n - 1) * pageSize + pageSize;
    }
  }

  lemma {:induction false} SpanMonotone(a: nat, b: nat, pageSize: nat)
    requires a <= b
    ensures Span(a, pageSize) <= Span(b, pageSize)
  {
    if a < b { SpanMonotone(a, b - 1, pageSize); }
  }

  predicate InFile(file: seq<byte>, pageSize: nat, page: int) {
    0 <= page && Span(page + 1, pageSize) <= |file|
  }

  predicate AllInFile(file: seq<byte>, pageSize: nat, pages: seq<int>) {
    forall i | 0 <= i < |pages| :: InFile(file, pageSize, pages[i])
  }

  function PageAt(file: seq<byte>, pageSize: nat, page: int): (r: seq<byte>)
    requires InFile(file, pageSize, page)
    ensures |r| == pageSize
  {
    file[Span(page, pageSize)..Span(page, pageSize) + pageSize]
  }

  /** The pages of a stream, one after the other. */
  function Flat(file: seq<byte>, pageSize: nat, pages: seq<int>): (r: seq<byte>)
    requires AllInFile(file, pageSize, pages)
    ensures |r| == Span(|pages|, pageSize)
  {
    if pages == [] then []
    else Flat(file, pageSize, pages[..|pages| - 1]) + PageAt(file, pageSize, pages[|pages| - 1])
  }

  /** A byte of the flat stream is the byte of its page. */
  lemma {:induction false} FlatByte(file: seq<byte>, pageSize: nat, pages: seq<int>, i: nat, k: nat)
    requires AllInFile(file, pageSize, pages) && i < |pages| && k < pageSize
    ensures Span(i, pageSize) + pageSize <= Span(|pages|, pageSize)
    ensures Flat(file, pageSize, pages)[Span(i, pageSize) + k] == file[Span(pages[i], pageSize) + k]
  {
    var n := |pages| - 1;
    assert InFile(file, pageSize, pages[i]);
    if i < n {
      FlatByte(file, pageSize, pages[..n], i, k);
    }
  }

  // ---------------------------------------------------------------- the file reader

  /** How many of `count` bytes the file has from the position on. */
  function Available(file: seq<byte>, pos: nat, count: nat): (n: nat)
    ensures n <= count
  {
    if pos >= |file| then 0 else if pos + count <= |file| then count else |file| - pos
  }

  class PdbReader {
    const file: seq<byte>
    const pageSize: nat
    var pos: int

    constructor (file: seq<byte>, pageSize: nat)
      ensures this.file == file && this.pageSize == pageSize
    {
      this.file, this.pageSize, pos := file, pageSize, 0;
    }

    /** Seeking before the start of the file fails. */
    method Seek(page: int, offset: nat) returns (ok: bool)
      modifies this
      ensures pos == page * pageSize + offset && ok == (pos >= 0)
      ensures page >= 0 ==> ok && pos == Span(page, pageSize) + offset
      ensures page < 0 && offset < pageSize ==> !ok
    {
      pos := page * pageSize + offset;
      ok := pos >= 0;
      if page >= 0 { SpanIsProduct(page, pageSize); }
    }

    /** Fills part of a buffer with what the file has from the position on. */
    method Read(bytes: array<byte>, offset: nat, count: nat)
      requires pos >= 0 && offset + count <= bytes.Length
      modifies this, bytes
      ensures pos == old(pos) + Available(file, old(pos), count)
      ensures forall k | offset <= k < offset + Available(file, old(pos), count) ::
                bytes[k] == file[old(pos) + (k - offset)]
      ensures forall k | 0 <= k < bytes.Length && !(offset <= k < offset + Available(file, old(pos), count)) ::
                bytes[k] == old(bytes[k])
    {
      var n := Available(file, pos, count);
      for i := 0 to n
        invariant pos == old(pos)
        invariant forall k | offset <= k < offset + i :: bytes[k] == file[pos + (k - offset)]
        invariant forall k | 0 <= k < bytes.Length && !(offset <= k < offset + i) :: bytes[k] == old(bytes[k])
      {
        bytes[offset + i] := file[pos + i];
      }
      pos := pos + n;
    }
  }

  // ---------------------------------------------------------------- DataStream

  method SplitPosition(position: nat, size: nat) returns (page: nat, rema: nat)
    requires size > 0
    ensures page == position / size && rema == position % size
    ensures Span(page, size) + rema == position && rema < size
  {
    page, rema := position / size, position % size;
    SpanIsProduct(page, size);
  }

  datatype DataStream = DataStream(contentSize: int, pages: seq<int>) {

    /** What every stream that the directory makes has: pages enough for its content. */
    predicate Covered(pageSize: nat) {
      0 <= contentSize <= Span(|pages|, pageSize)
    }

    /** A position inside the content is on a page of the list. */
    lemma PageKnown(page: nat, rema: nat, size: nat)
      requires Covered(size) && Span(page, size) + rema < contentSize
      ensures page < |pages|
    {
      if page >= |pages| { SpanMonotone(|pages|, page, size); }
    }

    /** Reads part of the page with index `page`. */
    method ReadPart(reader: PdbReader, page: nat, skip: nat, bytes: array<byte>, at: nat, todo: nat) returns (ok: bool)
      requires page < |pages| && at + todo <= bytes.Length && skip + todo <= reader.pageSize
      modifies reader, bytes
      ensures forall k | 0 <= k < bytes.Length && !(at <= k < at + todo) :: bytes[k] == old(bytes[k])
      ensures AllInFile(reader.file, reader.pageSize, pages) ==>
        && ok && Span(page, reader.pageSize) + skip + todo <= Span(|pages|, reader.pageSize)
        && forall k | at <= k < at + todo ::
             bytes[k] == Flat(reader.file, reader.pageSize, pages)[Span(page, reader.pageSize) + skip + (k - at)]
    {
      ok := reader.Seek(pages[page], skip);
      if ok {
        reader.Read(bytes, at, todo);
      }
      if AllInFile(reader.file, reader.pageSize, pages) {
        SpanMonotone(page + 1, |pages|, reader.pageSize);
        assert InFile(reader.file, reader.pageSize, pages[page]);
        forall k | at <= k < at + todo
          ensures bytes[k] == Flat(reader.file, reader.pageSize, pages)[Span(page, reader.pageSize) + skip + (k - at)]
        {
          FlatByte(reader.file, reader.pageSize, pages, page, skip + (k - at));
        }
      }
    }

    /** Reads `data` bytes of the stream from `position` on into the buffer, page by page: the
        bytes of the flat stream, and no other cell of the buffer changes. */
    method Read(reader: PdbReader, position: nat, bytes: array<byte>, offset: nat, data: nat) returns (ok: bool)
      requires reader.pageSize > 0 && Covered(reader.pageSize) && offset + data <= bytes.Length
      modifies reader, bytes
      ensures forall k | 0 <= k < bytes.Length && !(offset <= k < offset + data) :: bytes[k] == old(bytes[k])
      ensures position + data > contentSize ==> !ok && bytes[..] == old(bytes[..])
      ensures position + data <= contentSize && AllInFile(reader.file, reader.pageSize, pages) ==>
        ok && forall k | offset <= k < offset + data ::
                bytes[k] == Flat(reader.file, reader.pageSize, pages)[position + (k - offset)]
    {
      if position + data > contentSize {
        return false;
      }
      if position == contentSize {
        return true;
      }
      var size := reader.pageSize;
      ghost var sound := AllInFile(reader.file, size, pages);
      var at, left := offset, data;
      var page, rema := SplitPosition(position, size);

      if rema != 0 {
        var todo := if size - rema > left then left else size - rema;
        PageKnown(page, rema, size);
        ok := ReadPart(reader, page, rema, bytes, at, todo);
        if !ok {
          return;
        }
        at, left, page := at + todo, left - todo, page + 1;
      }

      while left > 0
        invariant 0 <= left <= data && at == offset + (data - left)
        invariant left > 0 ==> Span(page, size) == position + (data - left)
        invariant forall k | 0 <= k < bytes.Length && !(offset <= k < at) :: bytes[k] == old(bytes[k])
        invariant sound ==> forall k | offset <= k < at ::
          bytes[k] == Flat(reader.file, size, pages)[position + (k - offset)]
      {
        var todo := if size > left then left else size;
        PageKnown(page, 0, size);
        ok := ReadPart(reader, page, 0, bytes, at, todo);
        if !ok {
          return;
        }
        at, left, page := at + todo, left - todo, page + 1;
      }
      ok := true;
    }
  }
}
