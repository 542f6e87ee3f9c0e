/**
 A whole multi-stream file: the header, the root pages, the directory and the contents of the
 streams.  Opening a stored file and reading a stream gives the bytes stored for it, and the
 name index loaded from its stream is the stored one.
 */
module PdbFiles {
  import opened Options
  import opened Bytes
  import opened Msf
  import opened MsfDirectory
  import NameIndexes

  // ---------------------------------------------------------------- the encoder

  const MAGIC: seq<byte> := [
    0x4d, 0x69, 0x63, 0x72, 0x6f, 0x73, 0x6f, 0x66, 0x74, 0x20, 0x43, 0x2f, 0x43, 0x2b, 0x2b, 0x20,
    0x4d, 0x53, 0x46, 0x20, 0x37, 0x2e, 0x30, 0x30, 0x0d, 0x0a, 0x1a, 0x44, 0x53, 0x00, 0x00, 0x00]

  const HEADER_SIZE := 52

  datatype Header = Header(pageSize: int, freePageMap: int, pagesUsed: int, directorySize: int, zero: int)

  function Fields(h: Header): (r: seq<int>)
    ensures |r| == 5
  {
    [h.pageSize, h.freePageMap, h.pagesUsed, h.directorySize, h.zero]
  }

  function PutHeader(h: Header): (r: seq<byte>)
    ensures |r| == HEADER_SIZE
  {
    MAGIC + PutInts(Fields(h))
  }

  function ContentSize(e: Entry): nat {
    if e.size <= 0 then 0 else e.size
  }

  /** The pages of the entry hold the content. */
  ghost predicate ContentStored(file: seq<byte>, pageSize: nat, e: Entry, content: seq<byte>) {
    |content| == ContentSize(e) && AllInFile(file, pageSize, e.pages) && At(Flat(file, pageSize, e.pages), 0, content)
  }

  /** The file holds streams with these contents: header and roots in front, then, on any pages,
      the page list of the directory, the directory and the contents. */
  ghost predicate Stores(file: seq<byte>, h: Header, roots: seq<int>, list: seq<int>, entries: seq<Entry>,
                         contents: seq<seq<byte>>)
  {
    && AllInt32(Fields(h)) && h.pageSize > 0 && h.directorySize >= 0
    && At(file, 0, PutHeader(h) + PutInts(roots))
    && AllInt32(roots) && |roots| == RootCount(h.directorySize, h.pageSize)
    && Stored(file, h.pageSize, h.directorySize, roots, list, entries)
    && |contents| == |entries|
    && forall i | 0 <= i < |entries| :: ContentStored(file, h.pageSize, entries[i], contents[i])
  }

  // ---------------------------------------------------------------- the header

  /** A buffer of zeros after a read that gives what the file has. */
  function ReadFrom(file: seq<byte>, pos: nat, count: nat): (r: seq<byte>)
    ensures |r| == count
  {
    Overwritten(Zeros(count), file, pos, count)
  }

  /** ReadPdbHeader: no header when the magic number differs. */
  function ReadPdbHeader(file: seq<byte>): Option<Header> {
    if ReadFrom(file, 0, 32) != MAGIC then None
    else
      var info := ReadFrom(file, 32, 20);
      Some(Header(I32(info, 0), I32(info, 4), I32(info, 8), I32(info, 12), I32(info, 16)))
  }

  /** The magic number is this text. */
  lemma MagicText()
    ensures |MAGIC| == 32
    ensures var text := "Microsoft C/C++ MSF 7.00\r\n\U{001A}DS\0\0\0";
      |text| == 32 && forall k | 0 <= k < 32 :: MAGIC[k] == text[k] as int
  {
  }

  /** A file is accepted exactly when it starts with the magic number, but for zeros that it lacks at
      its end; the header has then the five numbers behind it. */
  lemma HeaderExact(file: seq<byte>)
    ensures ReadPdbHeader(file).Some? <==>
      forall k | 0 <= k < 32 :: MAGIC[k] == if k < |file| then file[k] else 0
    ensures ReadPdbHeader(file).Some? && |file| >= HEADER_SIZE ==>
      var info := file[32..52];
      ReadPdbHeader(file).value == Header(I32(info, 0), I32(info, 4), I32(info, 8), I32(info, 12), I32(info, 16))
  {
    var front := ReadFrom(file, 0, 32);
    assert forall k | 0 <= k < 32 :: front[k] == if k < |file| then file[k] else 0;
    if forall k | 0 <= k < 32 :: MAGIC[k] == if k < |file| then file[k] else 0 { assert front == MAGIC; }
    if |file| >= HEADER_SIZE { assert ReadFrom(file, 32, 20) == file[32..52]; }
  }

  lemma ReadWhole(file: seq<byte>, pos: nat, text: seq<byte>)
    requires At(file, pos, text)
    ensures ReadFrom(file, pos, |text|) == text
  {
  }

  lemma IntsRead(file: seq<byte>, pos: nat, xs: seq<int>)
    requires AllInt32(xs) && At(file, pos, PutInts(xs))
    ensures Ints(ReadFrom(file, pos, 4 * |xs|), 0, |xs|) == xs
  {
    ReadWhole(file, pos, PutInts(xs));
    IntsRoundTrip(xs, ReadFrom(file, pos, 4 * |xs|), 0);
  }

  lemma FieldsRead(h: Header, info: seq<byte>)
    requires |info| == 20 && Ints(info, 0, 5) == Fields(h)
    ensures Header(I32(info, 0), I32(info, 4), I32(info, 8), I32(info, 12), I32(info, 16)) == h
  {
    IntsAre(info, 0, 5, 0);
    IntsAre(info, 0, 5, 1);
    IntsAre(info, 0, 5, 2);
    IntsAre(info, 0, 5, 3);
    IntsAre(info, 0, 5, 4);
  }

  lemma HeaderRoundTrip(file: seq<byte>, h: Header, roots: seq<int>)
    requires AllInt32(Fields(h)) && AllInt32(roots) && At(file, 0, PutHeader(h) + PutInts(roots))
    ensures ReadPdbHeader(file) == Some(h)
    ensures Ints(ReadFrom(file, HEADER_SIZE, 4 * |roots|), 0, |roots|) == roots
  {
    AtParts(file, 0, PutHeader(h), PutInts(roots), HEADER_SIZE);
    AtParts(file, 0, MAGIC, PutInts(Fields(h)), 32);
    ReadWhole(file, 0, MAGIC);
    IntsRead(file, 32, Fields(h));
    FieldsRead(h, ReadFrom(file, 32, 20));
    IntsRead(file, HEADER_SIZE, roots);
  }

  // ---------------------------------------------------------------- opening and reading

  /** The header, the roots and the directory.  The buffer rented for the directory is longer
      than asked for by `spare` and holds anything.  None stands for a file without header and
      for an exception, such as for a page size that is not positive. */
  method Open(file: seq<byte>, spare: nat, held: nat -> byte) returns (reader: PdbReader, r: Option<seq<DataStream>>)
    ensures fresh(reader) && reader.file == file
    ensures r.Some? ==> 0 < reader.pageSize < INT32_LIMIT
    ensures forall h, roots, list, entries, contents | Stores(file, h, roots, list, entries, contents) ::
              reader.pageSize == h.pageSize && (r == Some(StreamsOf(entries)) <==> AllFit(entries, h.pageSize))
  {
    forall h, roots, list, entries, contents | Stores(file, h, roots, list, entries, contents)
      ensures ReadPdbHeader(file) == Some(h)
      ensures Ints(ReadFrom(file, HEADER_SIZE, 4 * |roots|), 0, |roots|) == roots
    {
      HeaderRoundTrip(file, h, roots);
    }
    var header := ReadPdbHeader(file);
    if header.None? || header.value.pageSize <= 0 || header.value.directorySize < 0 {
      reader := new PdbReader(file, 0);
      return reader, None;
    }
    var pageSize, size := header.value.pageSize, header.value.directorySize;
    var directoryPages := RootCount(size, pageSize);
    var directoryRoot := Ints(ReadFrom(file, HEADER_SIZE, 4 * directoryPages), 0, directoryPages);
    reader := new PdbReader(file, pageSize);
    var buffer := new byte[size + spare](held);
    r := LoadDirectory(reader, size, directoryRoot, buffer);
  }

  /** A stream's whole content.  None stands for the exception thrown when its pages do not cover
      it. */
  method ReadStream(reader: PdbReader, stream: DataStream) returns (r: Option<seq<byte>>)
    requires reader.pageSize > 0
    modifies reader
    ensures stream.Covered(reader.pageSize) && AllInFile(reader.file, reader.pageSize, stream.pages) ==>
              r == Some(Flat(reader.file, reader.pageSize, stream.pages)[..stream.contentSize])
  {
    if !stream.Covered(reader.pageSize) {
      return None;
    }
    var data := new byte[stream.contentSize](_ => 0);
    var ok := stream.Read(reader, 0, data, 0, stream.contentSize);
    r := if ok then Some(data[..]) else None;
    assert stream.Covered(reader.pageSize) && AllInFile(reader.file, reader.pageSize, stream.pages) ==>
        data[..] == Flat(reader.file, reader.pageSize, stream.pages)[..stream.contentSize];
  }

  /** The streams of a stored directory without wrapped counts have pages for their contents. */
  lemma EntryCovered(e: Entry, pageSize: nat)
    requires 0 < pageSize < INT32_LIMIT && WellFormedEntry(e, pageSize) && SizeFits(e.size, pageSize)
    ensures StreamOf(e).Covered(pageSize) && StreamOf(e).contentSize == ContentSize(e)
  {
    if e.size > 0 {
      PagesForExact(e.size, pageSize);
      SpanIsProduct(|e.pages|, pageSize);
    }
  }

  lemma StoredContent(file: seq<byte>, h: Header, roots: seq<int>, list: seq<int>, entries: seq<Entry>,
                      contents: seq<seq<byte>>, i: nat)
    requires Stores(file, h, roots, list, entries, contents) && AllFit(entries, h.pageSize) && i < |entries|
    ensures var s := StreamsOf(entries)[i];
      && s.Covered(h.pageSize) && AllInFile(file, h.pageSize, s.pages)
      && Flat(file, h.pageSize, s.pages)[..s.contentSize] == contents[i]
  {
    assert WellFormedEntry(entries[i], h.pageSize) && ContentStored(file, h.pageSize, entries[i], contents[i]);
    EntryCovered(entries[i], h.pageSize);
    assert forall k | 0 <= k < |contents[i]| :: Flat(file, h.pageSize, entries[i].pages)[0 + k] == contents[i][k];
  }

  /** Opening a stored file and reading stream `i` gives the bytes stored for it. */
  method OpenStream(file: seq<byte>, i: nat, spare: nat, held: nat -> byte) returns (r: Option<seq<byte>>)
    ensures forall h, roots, list, entries, contents |
              Stores(file, h, roots, list, entries, contents) && AllFit(entries, h.pageSize) ::
              r == if i < |contents| then Some(contents[i]) else None
  {
    var reader, streams := Open(file, spare, held);
    if streams.None? || i >= |streams.value| {
      return None;
    }
    forall h, roots, list, entries, contents |
      Stores(file, h, roots, list, entries, contents) && AllFit(entries, h.pageSize)
      ensures var s := streams.value[i];
        && s.Covered(h.pageSize) && AllInFile(file, h.pageSize, s.pages)
        && Flat(file, h.pageSize, s.pages)[..s.contentSize] == contents[i]
    {
      StoredContent(file, h, roots, list, entries, contents, i);
    }
    r := ReadStream(reader, streams.value[i]);
  }

  /** The file's name index, from stream 1: what is loaded is the stored dictionary, and loading
      succeeds exactly when the names are distinct up to folding and the count is right. */
  method OpenNameIndex(file: seq<byte>, fold: seq<byte> -> seq<byte>, spare: nat, held: nat -> byte)
    returns (r: Option<NameIndexes.NameIndex>)
    ensures forall h, roots, list, entries, contents, t |
              && Stores(file, h, roots, list, entries, contents) && AllFit(entries, h.pageSize)
              && |contents| > 1 && NameIndexes.WellFormed(t) && contents[1] == NameIndexes.Encode(t) ::
              && (r.Some? <==> NameIndexes.DistinctNames(fold, t.slots) && t.count == NameIndexes.Fulls(t.slots))
              && (r.Some? ==> && r.value.age == t.age && r.value.guid == t.guid
                              && NameIndexes.IsIndex(fold, t.slots, r.value.index))
  {
    var bits :- OpenStream(file, 1, spare, held);
    r := NameIndexes.LoadNameIndex(bits, fold);
    forall t | NameIndexes.WellFormed(t) && bits == NameIndexes.Encode(t)
      ensures r.Some? <==> NameIndexes.DistinctNames(fold, t.slots) && t.count == NameIndexes.Fulls(t.slots)
      ensures r.Some? ==> && r.value.age == t.age && r.value.guid == t.guid
                          && NameIndexes.IsIndex(fold, t.slots, r.value.index)
    {
      NameIndexes.LoadExact(bits, t, fold);
    }
  }

  // ---------------------------------------------------------------- a stored file

  const PAGE := 64

  function Padded(text: seq<byte>): (r: seq<byte>)
    requires |text| <= PAGE
    ensures |r| == PAGE && At(r, 0, text)
  {
    text + Zeros(PAGE - |text|)
  }

  function FourPages(a: seq<byte>, b: seq<byte>, c: seq<byte>, d: seq<byte>): (r: seq<byte>)
    requires |a| == |b| == |c| == |d| == PAGE
    ensures |r| == 4 * PAGE
  {
    a + (b + (c + d))
  }

  lemma PagesOfFour(a: seq<byte>, b: seq<byte>, c: seq<byte>, d: seq<byte>)
    requires |a| == |b| == |c| == |d| == PAGE
    ensures var file := FourPages(a, b, c, d);
      && At(file, 0, a) && At(file, Span(1, PAGE), b)
      && InFile(file, PAGE, 2) && PageAt(file, PAGE, 2) == c
      && InFile(file, PAGE, 3) && PageAt(file, PAGE, 3) == d
  {
    assert Span(1, PAGE) == 64 && Span(2, PAGE) == 128 && Span(3, PAGE) == 192 && Span(4, PAGE) == 256;
  }

  lemma OnePageFlat(file: seq<byte>, page: int)
    requires InFile(file, PAGE, page)
    ensures AllInFile(file, PAGE, [page]) && Flat(file, PAGE, [page]) == PageAt(file, PAGE, page)
  {
    assert [page][..0] == [];
    assert Flat(file, PAGE, []) == [];
  }

  const SMALL := Header(PAGE, 0, 4, 12, 0)

  /** A file of four pages: header and root, page list, directory, and the content of its stream. */
  lemma SmallFile(content: seq<byte>) returns (file: seq<byte>)
    requires 0 < |content| <= PAGE
    ensures Stores(file, SMALL, [1], [2], [Entry(|content|, [3])], [content])
    ensures AllFit([Entry(|content|, [3])], PAGE)
  {
    var entries := [Entry(|content|, [3])];
    var front := PutHeader(SMALL) + PutInts([1]);
    SmallDirectory(|content|);
    file := FourPages(Padded(front), Padded(PutInts([2])), Padded(Encode(entries)), Padded(content));
    PagesOfFour(Padded(front), Padded(PutInts([2])), Padded(Encode(entries)), Padded(content));
    OnePageFlat(file, 2);
    OnePageFlat(file, 3);
    assert At(file, 0, front) by { AtInside(file, 0, Padded(front), front); }
    SmallRoots(file);
    assert ContentStored(file, PAGE, entries[0], content);
  }

  lemma AtInside(bs: seq<byte>, off: nat, page: seq<byte>, text: seq<byte>)
    requires At(bs, off, page) && At(page, 0, text)
    ensures At(bs, off, text)
  {
    forall k | 0 <= k < |text| ensures bs[off + k] == text[k] { assert page[0 + k] == text[k]; }
  }

  lemma SmallDirectory(size: nat)
    requires 0 < size <= PAGE
    ensures |Encode([Entry(size, [3])])| == SMALL.directorySize && WellFormedEntries([Entry(size, [3])], PAGE)
    ensures PagesFromSize(SMALL.directorySize, PAGE) == 1 && RootCount(SMALL.directorySize, PAGE) == 1
  {
    var entries := [Entry(size, [3])];
    assert entries[..0] == [] && PutPages(entries) == PutPages([]) + PutInts([3]);
  }

  lemma SmallRoots(file: seq<byte>)
    requires At(file, Span(1, PAGE), Padded(PutInts([2])))
    ensures RootsHold(file, PAGE, [1], [2])
  {
    assert Span(0, PAGE / 4) == 0 && Span(1, PAGE / 4) == PAGE / 4;
    AtInside(file, Span(1, PAGE), Padded(PutInts([2])), PutInts([2]));
    assert [2][0..1] == [2];
    assert RootHolds(file, PAGE, 1, [2], 0);
  }
}
