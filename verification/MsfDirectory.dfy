/**
 The directory of a multi-stream file: the root pages list the directory's pages, and the
 directory lists size and pages of every stream.  Reading a stored directory gives its
 streams, exactly when the page list fits one root page.
 */
module MsfDirectory {
  import opened Options
  import opened Bytes
  import opened Msf

  // ---------------------------------------------------------------- the encoder

  /** A stream as the directory stores it. */
  datatype Entry = Entry(size: int, pages: seq<int>)

  predicate WellFormedEntry(e: Entry, pageSize: nat)
    requires pageSize > 0
  {
    IsInt32(e.size) && AllInt32(e.pages) && |e.pages| == if e.size <= 0 then 0 else PagesFor(e.size, pageSize)
  }

  predicate WellFormedEntries(entries: seq<Entry>, pageSize: nat)
    requires pageSize > 0
  {
    |entries| < INT32_LIMIT && forall i | 0 <= i < |entries| :: WellFormedEntry(entries[i], pageSize)
  }

  /** No size is so near to the limit of its type that the page count wraps. */
  predicate AllFit(entries: seq<Entry>, pageSize: nat) {
    forall i | 0 <= i < |entries| :: SizeFits(entries[i].size, pageSize)
  }

  function Sizes(entries: seq<Entry>): (r: seq<int>)
    ensures |r| == |entries| && forall i | 0 <= i < |r| :: r[i] == entries[i].size
  {
    seq(|entries|, i requires 0 <= i < |entries| => entries[i].size)
  }

  function PutPages(entries: seq<Entry>): seq<byte> {
    if entries == [] then [] else PutPages(entries[..|entries| - 1]) + PutInts(entries[|entries| - 1].pages)
  }

  function Head(entries: seq<Entry>): (r: seq<byte>)
    ensures |r| == 4 + 4 * |entries|
  {
    Put32(|entries|) + PutInts(Sizes(entries))
  }

  function Encode(entries: seq<Entry>): seq<byte> {
    Head(entries) + PutPages(entries)
  }

  /** The stream the reader should make of an entry. */
  function StreamOf(e: Entry): DataStream {
    DataStream(if e.size <= 0 then 0 else e.size, e.pages)
  }

  function StreamsOf(entries: seq<Entry>): (r: seq<DataStream>)
    ensures |r| == |entries|
  {
    seq(|entries|, i requires 0 <= i < |entries| => StreamOf(entries[i]))
  }

  // ---------------------------------------------------------------- parsing the directory

  /** The loop over the streams: the offset reached and the streams made. */
  datatype Progress = Progress(offset: nat, streams: seq<DataStream>)

  function OneStream(bs: seq<byte>, size: int, pageSize: nat, p: Progress): Option<Progress>
    requires pageSize > 0
  {
    if size <= 0 then Some(Progress(p.offset, p.streams + [DataStream(0, [])]))
    else
      var n := PagesFromSize(size, pageSize);
      if n <= 0 then Some(Progress(p.offset, p.streams + [DataStream(size, [])]))
      else if p.offset + 4 * n > |bs| then None
      else Some(Progress(p.offset + 4 * n, p.streams + [DataStream(size, Ints(bs, p.offset, n))]))
  }

  function Streams(bs: seq<byte>, sizes: seq<int>, pageSize: nat, start: nat): Option<Progress>
    requires pageSize > 0
  {
    if sizes == [] then Some(Progress(start, []))
    else
      var p :- Streams(bs, sizes[..|sizes| - 1], pageSize, start);
      OneStream(bs, sizes[|sizes| - 1], pageSize, p)
  }

  /** The streams of the directory whose bytes the buffer starts with; none when a number
      lies outside the buffer. */
  function Directory(bs: seq<byte>, pageSize: nat): Option<seq<DataStream>>
    requires pageSize > 0
  {
    var count :- ReadI32(bs, 0);
    if count < 0 || 4 + 4 * count > |bs| then None
    else
      var p :- Streams(bs, Ints(bs, 4, count), pageSize, 4 + 4 * count);
      Some(p.streams)
  }

  method ReadInts(bs: seq<byte>, start: nat, n: nat) returns (r: Option<seq<int>>)
    ensures r == if start + 4 * n <= |bs| then Some(Ints(bs, start, n)) else None
  {
    var xs, offset := [], start;
    for i := 0 to n
      invariant offset == start + 4 * i && (i > 0 ==> offset <= |bs|)
      invariant offset <= |bs| ==> xs == Ints(bs, start, i)
    {
      if offset + 4 > |bs| {
        return None;
      }
      xs := xs + [I32(bs, offset)];
      offset := offset + 4;
    }
    r := if offset <= |bs| then Some(xs) else None;
  }

  method ParseStreams(bs: seq<byte>, sizes: seq<int>, pageSize: nat, start: nat) returns (r: Option<seq<DataStream>>)
    requires pageSize > 0
    ensures r.Some? <==> Streams(bs, sizes, pageSize, start).Some?
    ensures r.Some? ==> r.value == Streams(bs, sizes, pageSize, start).value.streams
  {
    var offset, streams := start, [];
    for i := 0 to |sizes|
      invariant offset >= 0
      invariant Streams(bs, sizes[..i], pageSize, start) == Some(Progress(offset, streams))
    {
      assert sizes[..i + 1][..i] == sizes[..i];
      if sizes[i] <= 0 {
        streams := streams + [DataStream(0, [])];
      } else {
        var n := PagesFromSize(sizes[i], pageSize);
        if n > 0 {
          var pages := ReadInts(bs, offset, n);
          if pages.None? {
            FailureStays(bs, sizes, pageSize, start, i + 1);
            return None;
          }
          streams := streams + [DataStream(sizes[i], pages.value)];
          offset := offset + 4 * n;
        } else {
          streams := streams + [DataStream(sizes[i], [])];
        }
      }
    }
    assert sizes[..|sizes|] == sizes;
    r := Some(streams);
  }

  method ParseDirectory(bs: seq<byte>, pageSize: nat) returns (r: Option<seq<DataStream>>)
    requires pageSize > 0
    ensures r == Directory(bs, pageSize)
  {
    if |bs| < 4 {
      return None;
    }
    var count := I32(bs, 0);
    if count < 0 {
      return None;
    }
    var sizes := ReadInts(bs, 4, count);
    if sizes.None? {
      return None;
    }
    r := ParseStreams(bs, sizes.value, pageSize, 4 + 4 * count);
  }

  lemma {:induction false} FailureStays(bs: seq<byte>, sizes: seq<int>, pageSize: nat, start: nat, i: nat)
    requires pageSize > 0 && i <= |sizes| && Streams(bs, sizes[..i], pageSize, start).None?
    ensures Streams(bs, sizes, pageSize, start).None?
  {
    if i == |sizes| {
      assert sizes[..i] == sizes;
    } else {
      assert sizes[..|sizes| - 1][..i] == sizes[..i];
      FailureStays(bs, sizes[..|sizes| - 1], pageSize, start, i);
    }
  }

  lemma OneStreamRoundTrip(bs: seq<byte>, e: Entry, pageSize: nat, p: Progress)
    requires 0 < pageSize < INT32_LIMIT && WellFormedEntry(e, pageSize) && SizeFits(e.size, pageSize)
    requires At(bs, p.offset, PutInts(e.pages))
    ensures OneStream(bs, e.size, pageSize, p)
         == Some(Progress(p.offset + |PutInts(e.pages)|, p.streams + [StreamOf(e)]))
  {
    IntsRoundTrip(e.pages, bs, p.offset);
    if e.size <= 0 { assert e.pages == []; } else { PagesFromSizeExact(e.size, pageSize); }
  }

  lemma SizesSnoc(entries: seq<Entry>)
    requires entries != []
    ensures var n := |entries| - 1;
      && Sizes(entries)[..n] == Sizes(entries[..n])
      && StreamsOf(entries) == StreamsOf(entries[..n]) + [StreamOf(entries[n])]
  {
  }

  lemma {:induction false} StreamsRoundTrip(bs: seq<byte>, entries: seq<Entry>, pageSize: nat, start: nat)
    requires 0 < pageSize < INT32_LIMIT
    requires forall i | 0 <= i < |entries| ::
               WellFormedEntry(entries[i], pageSize) && SizeFits(entries[i].size, pageSize)
    requires At(bs, start, PutPages(entries))
    ensures Streams(bs, Sizes(entries), pageSize, start)
      == Some(Progress(start + |PutPages(entries)|, StreamsOf(entries)))
  {
    if entries == [] {
      assert StreamsOf(entries) == [];
    } else {
      var n := |entries| - 1;
      var init := entries[..n];
      AtConcat(bs, start, PutPages(init), PutInts(entries[n].pages));
      StreamsRoundTrip(bs, init, pageSize, start);
      SizesSnoc(entries);
      OneStreamRoundTrip(bs, entries[n], pageSize, Progress(start + |PutPages(init)|, StreamsOf(init)));
    }
  }

  lemma SizesInt32(entries: seq<Entry>, pageSize: nat)
    requires pageSize > 0 && WellFormedEntries(entries, pageSize)
    ensures AllInt32(Sizes(entries))
  {
    forall i | 0 <= i < |entries| ensures IsInt32(Sizes(entries)[i]) {
      assert WellFormedEntry(entries[i], pageSize);
    }
  }

  lemma EncodedParts(bs: seq<byte>, entries: seq<Entry>)
    requires At(bs, 0, Encode(entries))
    ensures At(bs, 0, Head(entries)) && At(bs, |Head(entries)|, PutPages(entries))
  {
    AtConcat(bs, 0, Head(entries), PutPages(entries));
  }

  lemma HeadRoundTrip(bs: seq<byte>, entries: seq<Entry>)
    requires At(bs, 0, Head(entries)) && IsInt32(|entries|) && AllInt32(Sizes(entries))
    ensures ReadI32(bs, 0) == Some(|entries|) && 4 + 4 * |entries| <= |bs|
    ensures Ints(bs, 4, |entries|) == Sizes(entries)
  {
    AtParts(bs, 0, Put32(|entries|), PutInts(Sizes(entries)), 4);
    I32RoundTrip(|entries|, bs, 0);
    IntsRoundTrip(Sizes(entries), bs, 4);
  }

  lemma HeadRead(bs: seq<byte>, entries: seq<Entry>, pageSize: nat)
    requires pageSize > 0 && WellFormedEntries(entries, pageSize) && At(bs, 0, Encode(entries))
    ensures ReadI32(bs, 0) == Some(|entries|) && |Head(entries)| <= |bs| && Ints(bs, 4, |entries|) == Sizes(entries)
  {
    EncodedParts(bs, entries);
    SizesInt32(entries, pageSize);
    HeadRoundTrip(bs, entries);
  }

  /** A stream has pages for its content, which is what a read relies on, exactly when its page
      count did not wrap; else it has none. */
  lemma {:induction false} StreamsCovered(bs: seq<byte>, sizes: seq<int>, pageSize: nat, start: nat)
    requires 0 < pageSize < INT32_LIMIT && AllInt32(sizes) && Streams(bs, sizes, pageSize, start).Some?
    ensures var streams := Streams(bs, sizes, pageSize, start).value.streams;
      && |streams| == |sizes|
      && forall i | 0 <= i < |sizes| ::
           && (streams[i].Covered(pageSize) <==> SizeFits(sizes[i], pageSize))
           && (!SizeFits(sizes[i], pageSize) ==> streams[i] == DataStream(sizes[i], []))
  {
    if sizes != [] {
      var n := |sizes| - 1;
      StreamsCovered(bs, sizes[..n], pageSize, start);
      if sizes[n] > 0 {
        PagesFromSizeExact(sizes[n], pageSize);
        PagesForExact(sizes[n], pageSize);
        SpanIsProduct(PagesFor(sizes[n], pageSize), pageSize);
      }
    }
  }

  lemma DirectoryStreams(bs: seq<byte>, count: nat, sizes: seq<int>, pageSize: nat, start: nat)
    requires pageSize > 0 && ReadI32(bs, 0) == Some(count) && start == 4 + 4 * count <= |bs|
      && Ints(bs, 4, count) == sizes
    ensures var p := Streams(bs, sizes, pageSize, start);
      Directory(bs, pageSize) == if p.Some? then Some(p.value.streams) else None
  {
  }

  lemma NeedsPages(entries: seq<Entry>, pageSize: nat, i: nat)
    requires 0 < pageSize < INT32_LIMIT && WellFormedEntries(entries, pageSize)
    requires i < |entries| && !SizeFits(entries[i].size, pageSize)
    ensures StreamsOf(entries)[i].pages != []
  {
    assert WellFormedEntry(entries[i], pageSize);
    PagesForExact(entries[i].size, pageSize);
  }

  /** Reading any encoded directory stays inside it: no count is greater than the entry's. */
  lemma {:induction false} StreamsInside(bs: seq<byte>, entries: seq<Entry>, pageSize: nat, start: nat)
    requires 0 < pageSize < INT32_LIMIT && forall i | 0 <= i < |entries| :: WellFormedEntry(entries[i], pageSize)
    requires start + |PutPages(entries)| <= |bs|
    ensures var p := Streams(bs, Sizes(entries), pageSize, start);
      p.Some? && p.value.offset <= start + |PutPages(entries)|
  {
    if entries != [] {
      var n := |entries| - 1;
      StreamsInside(bs, entries[..n], pageSize, start);
      SizesSnoc(entries);
      if entries[n].size > 0 { PagesFromSizeExact(entries[n].size, pageSize); }
    }
  }

  lemma StreamsRead(bs: seq<byte>, entries: seq<Entry>, pageSize: nat)
    requires 0 < pageSize < INT32_LIMIT && WellFormedEntries(entries, pageSize) && At(bs, 0, Encode(entries))
    ensures Streams(bs, Sizes(entries), pageSize, |Head(entries)|).Some?
  {
    EncodedParts(bs, entries);
    StreamsInside(bs, entries, pageSize, |Head(entries)|);
  }

  lemma DirectoryRead(bs: seq<byte>, entries: seq<Entry>, pageSize: nat)
    requires 0 < pageSize < INT32_LIMIT && WellFormedEntries(entries, pageSize) && At(bs, 0, Encode(entries))
    ensures Streams(bs, Sizes(entries), pageSize, |Head(entries)|).Some?
    ensures Directory(bs, pageSize) == Some(Streams(bs, Sizes(entries), pageSize, |Head(entries)|).value.streams)
  {
    StreamsRead(bs, entries, pageSize);
    DirectoryStarts(bs, entries, pageSize);
  }

  lemma DirectoryStarts(bs: seq<byte>, entries: seq<Entry>, pageSize: nat)
    requires pageSize > 0 && WellFormedEntries(entries, pageSize) && At(bs, 0, Encode(entries))
    ensures var p := Streams(bs, Sizes(entries), pageSize, |Head(entries)|);
      Directory(bs, pageSize) == if p.Some? then Some(p.value.streams) else None
  {
    HeadRead(bs, entries, pageSize);
    DirectoryStreams(bs, |entries|, Sizes(entries), pageSize, |Head(entries)|);
  }

  /** In any encoded directory, a stream whose page count wraps is made without its pages. */
  lemma WrappedStream(bs: seq<byte>, entries: seq<Entry>, pageSize: nat, i: nat)
    requires 0 < pageSize < INT32_LIMIT && WellFormedEntries(entries, pageSize) && At(bs, 0, Encode(entries))
    requires i < |entries| && !SizeFits(entries[i].size, pageSize)
    ensures var streams := Directory(bs, pageSize);
      streams.Some? && |streams.value| == |entries| && streams.value[i] == DataStream(entries[i].size, [])
  {
    DirectoryRead(bs, entries, pageSize);
    SizesInt32(entries, pageSize);
    StreamsCovered(bs, Sizes(entries), pageSize, |Head(entries)|);
  }

  /** Whatever follows the directory's bytes in the buffer, its streams come back, every size, or
      0 for one that is not positive, and every page list, exactly when no page count wraps. */
  lemma DirectoryRoundTrip(bs: seq<byte>, entries: seq<Entry>, pageSize: nat)
    requires 0 < pageSize < INT32_LIMIT && WellFormedEntries(entries, pageSize) && At(bs, 0, Encode(entries))
    ensures Directory(bs, pageSize) == Some(StreamsOf(entries)) <==> AllFit(entries, pageSize)
  {
    DirectoryRead(bs, entries, pageSize);
    if AllFit(entries, pageSize) {
      EncodedParts(bs, entries);
      StreamsRoundTrip(bs, entries, pageSize, |Head(entries)|);
    } else {
      var i :| 0 <= i < |entries| && !SizeFits(entries[i].size, pageSize);
      WrappedStream(bs, entries, pageSize, i);
      NeedsPages(entries, pageSize, i);
    }
  }

  /** A directory with one stream of the greatest size: the stream is made without its pages. */
  lemma NearLimit(bs: seq<byte>)
    requires At(bs, 0, Encode([Entry(0x7fff_ffff, seq(0x8_0000, _ => 1))]))
    ensures Directory(bs, 0x1000) == Some([DataStream(0x7fff_ffff, [])])
  {
    var entries := [Entry(0x7fff_ffff, seq(0x8_0000, _ => 1))];
    assert PagesFor(0x7fff_ffff, 0x1000) == 0x8_0000;
    WrappedStream(bs, entries, 0x1000, 0);
    assert Directory(bs, 0x1000).value == [DataStream(0x7fff_ffff, [])];
  }

  // ---------------------------------------------------------------- the root pages

  function Zeros(n: nat): (r: seq<byte>)
    ensures |r| == n && forall k | 0 <= k < n :: r[k] == 0
  {
    seq(n, i => 0)
  }

  function Overwritten(buf: seq<byte>, file: seq<byte>, pos: nat, count: nat): (r: seq<byte>)
    ensures |r| == |buf|
    ensures forall k | 0 <= k < |r| :: r[k] == if k < Available(file, pos, count) then file[pos + k] else buf[k]
  {
    var n := Available(file, pos, count);
    seq(|buf|, k requires 0 <= k < |buf| => if k < n then file[pos + k] else buf[k])
  }

  /** The loop over the root pages: the buffer of page numbers and how many are to go. */
  datatype RootState = RootState(buf: seq<byte>, toGo: nat)

  function InThisPage(toGo: nat, perPage: nat): nat {
    if toGo <= perPage then toGo else perPage
  }

  /** Every root is read to the start of the buffer. */
  function AfterRoots(file: seq<byte>, pageSize: nat, roots: seq<int>, numPages: nat): (r: RootState)
    ensures |r.buf| == 4 * numPages && r.toGo <= numPages
  {
    if roots == [] then RootState(Zeros(4 * numPages), numPages)
    else
      var st, t := AfterRoots(file, pageSize, roots[..|roots| - 1], numPages), roots[|roots| - 1];
      var n := InThisPage(st.toGo, pageSize / 4);
      RootState(if t < 0 then st.buf else Overwritten(st.buf, file, Span(t, pageSize), 4 * n), st.toGo - n)
  }

  /** What the loop never writes. */
  lemma {:induction false} NeverWritten(file: seq<byte>, pageSize: nat, roots: seq<int>, numPages: nat, k: nat)
    requires 4 * (pageSize / 4) <= k < 4 * numPages
    ensures AfterRoots(file, pageSize, roots, numPages).buf[k] == 0
  {
    if roots != [] {
      var init := roots[..|roots| - 1];
      NeverWritten(file, pageSize, init, numPages, k);
    } else {
      assert AfterRoots(file, pageSize, roots, numPages).buf == Zeros(4 * numPages);
    }
  }

  /** Root page `k` holds its share of the page list. */
  ghost predicate RootHolds(file: seq<byte>, pageSize: nat, root: int, list: seq<int>, k: nat) {
    var perPage := pageSize / 4;
    var lo := if Span(k, perPage) <= |list| then Span(k, perPage) else |list|;
    var hi := if Span(k + 1, perPage) <= |list| then Span(k + 1, perPage) else |list|;
    SpanMonotone(k, k + 1, perPage);
    root >= 0 && At(file, Span(root, pageSize), PutInts(list[lo..hi]))
  }

  /** The roots, in order, hold the whole page list. */
  ghost predicate RootsHold(file: seq<byte>, pageSize: nat, roots: seq<int>, list: seq<int>) {
    && |list| <= Span(|roots|, pageSize / 4)
    && forall k | 0 <= k < |roots| :: RootHolds(file, pageSize, roots[k], list, k)
  }

  lemma {:induction false} OneRootFills(file: seq<byte>, pageSize: nat, roots: seq<int>, list: seq<int>)
    requires |list| <= pageSize / 4 && roots != []
    requires roots[0] >= 0 && At(file, Span(roots[0], pageSize), PutInts(list))
    ensures AfterRoots(file, pageSize, roots, |list|).toGo == 0
    ensures At(AfterRoots(file, pageSize, roots, |list|).buf, 0, PutInts(list))
  {
    var n := |roots| - 1;
    var before := AfterRoots(file, pageSize, roots[..n], |list|);
    if n > 0 {
      OneRootFills(file, pageSize, roots[..n], list);
    } else {
      assert before == RootState(Zeros(4 * |list|), |list|);
    }
  }

  /** The page list that the constructor reads. */
  function PageList(file: seq<byte>, pageSize: nat, roots: seq<int>, numPages: nat): (r: seq<int>)
    ensures |r| == numPages
  {
    Ints(AfterRoots(file, pageSize, roots, numPages).buf, 0, numPages)
  }

  lemma {:induction false} ZeroNumber(bs: seq<byte>, off: nat, n: nat)
    requires off + n <= |bs| && forall k | off <= k < off + n :: bs[k] == 0
    ensures Number(bs, off, n) == 0
    decreases n
  {
    if n > 0 { ZeroNumber(bs, off + 1, n - 1); }
  }

  /** The page list is read right exactly when it fits one root page: page 0 is never a page of
      a stream, and the rest of a longer list reads as zeros. */
  lemma PageListExact(file: seq<byte>, pageSize: nat, roots: seq<int>, list: seq<int>)
    requires RootsHold(file, pageSize, roots, list) && AllInt32(list) && forall i | 0 <= i < |list| :: list[i] > 0
    ensures PageList(file, pageSize, roots, |list|) == list <==> |list| <= pageSize / 4
  {
    var perPage := pageSize / 4;
    var buf := AfterRoots(file, pageSize, roots, |list|).buf;
    if |list| <= perPage {
      if list != [] {
        assert Span(0, perPage) == 0 && Span(1, perPage) == perPage;
        assert roots != [];
        assert RootHolds(file, pageSize, roots[0], list, 0) && list[0..|list|] == list;
        OneRootFills(file, pageSize, roots, list);
      }
      IntsRoundTrip(list, buf, 0);
    } else {
      forall k | 4 * perPage <= k < 4 * perPage + 4 ensures buf[k] == 0 {
        NeverWritten(file, pageSize, roots, |list|, k);
      }
      ZeroNumber(buf, 4 * perPage, 4);
      IntsAre(buf, 0, |list|, perPage);
    }
  }

  lemma AtOf(a: seq<byte>, b: seq<byte>)
    ensures At(a + b, 0, a) && At(a + b, |a|, b)
  {
  }

  /** A list for two root pages, which stand behind the header page of the file: the list that is
      read is another one. */
  lemma SecondRootLost(header: seq<byte>, list: seq<int>)
    requires |header| % 4 == 0 && |header| / 4 < |list| <= 2 * (|header| / 4)
    requires AllInt32(list) && forall i | 0 <= i < |list| :: list[i] > 0
    ensures var pageSize, perPage := |header|, |header| / 4;
      var file := header + (PutInts(list[..perPage]) + PutInts(list[perPage..]));
      RootsHold(file, pageSize, [1, 2], list) && PageList(file, pageSize, [1, 2], |list|) != list
  {
    var pageSize, perPage := |header|, |header| / 4;
    var first, second := PutInts(list[..perPage]), PutInts(list[perPage..]);
    var file := header + (first + second);
    AtOf(header, first + second);
    AtParts(file, pageSize, first, second, 2 * pageSize);
    TwoSpans(pageSize);
    TwoSpans(perPage);
    assert list[0..perPage] == list[..perPage] && list[perPage..|list|] == list[perPage..];
    assert RootHolds(file, pageSize, 1, list, 0) && RootHolds(file, pageSize, 2, list, 1);
    PageListExact(file, pageSize, [1, 2], list);
  }

  lemma TwoSpans(n: nat)
    ensures Span(0, n) == 0 && Span(1, n) == n && Span(2, n) == 2 * n
  {
    assert Span(1, n) == Span(0, n) + n && Span(2, n) == Span(1, n) + n;
  }

  // ---------------------------------------------------------------- the constructor

  /** A directory with these entries is stored on the pages of `list`, which is stored on one
      root page. */
  ghost predicate Stored(file: seq<byte>, pageSize: nat, directorySize: nat, roots: seq<int>, list: seq<int>,
                         entries: seq<Entry>)
    requires pageSize > 0
  {
    && |list| == PagesFromSize(directorySize, pageSize) <= pageSize / 4 && SizeFits(directorySize, pageSize)
    && RootsHold(file, pageSize, roots, list)
    && AllInt32(list) && (forall i | 0 <= i < |list| :: list[i] > 0) && AllInFile(file, pageSize, list)
    && WellFormedEntries(entries, pageSize) && directorySize == |Encode(entries)|
    && At(Flat(file, pageSize, list), 0, Encode(entries))
  }

  lemma RootsInFile(file: seq<byte>, pageSize: nat, roots: seq<int>, list: seq<int>)
    requires RootsHold(file, pageSize, roots, list)
    ensures forall i | 0 <= i < |roots| :: roots[i] >= 0
  {
    forall i | 0 <= i < |roots| ensures roots[i] >= 0 {
      assert RootHolds(file, pageSize, roots[i], list, i);
    }
  }

  lemma Copied(to: seq<byte>, from: seq<byte>, text: seq<byte>)
    requires At(from, 0, text) && |text| <= |to| && forall k | 0 <= k < |text| :: to[k] == from[k]
    ensures At(to, 0, text)
  {
    forall k | 0 <= k < |text| ensures to[0 + k] == text[k] {
      assert from[0 + k] == text[k];
    }
  }

  method ReadRoots(reader: PdbReader, roots: seq<int>, buf: array<byte>, numPages: nat) returns (ok: bool)
    requires reader.pageSize > 0 && buf.Length == 4 * numPages && buf[..] == Zeros(4 * numPages)
    modifies reader, buf
    ensures ok <==> forall i | 0 <= i < |roots| :: roots[i] >= 0
    ensures ok ==> buf[..] == AfterRoots(reader.file, reader.pageSize, roots, numPages).buf
  {
    var pagesToGo := numPages;
    for i := 0 to |roots|
      invariant pagesToGo >= 0
      invariant RootState(buf[..], pagesToGo) == AfterRoots(reader.file, reader.pageSize, roots[..i], numPages)
      invariant forall j | 0 <= j < i :: roots[j] >= 0
    {
      assert roots[..i + 1][..i] == roots[..i];
      ok := reader.Seek(roots[i], 0);
      if !ok {
        return;
      }
      var n := InThisPage(pagesToGo, reader.pageSize / 4);
      ghost var before, pos := buf[..], reader.pos;
      reader.Read(buf, 0, 4 * n);
      assert buf[..] == Overwritten(before, reader.file, pos, 4 * n);
      pagesToGo := pagesToGo - n;
    }
    assert roots[..|roots|] == roots;
    ok := true;
  }

  /** The directory's own page count. */
  lemma DirectoryCovered(stream: DataStream, pageSize: nat)
    requires 0 < pageSize < INT32_LIMIT && |stream.pages| == PagesFromSize(stream.contentSize, pageSize)
    ensures 0 <= stream.contentSize && SizeFits(stream.contentSize, pageSize) ==> stream.Covered(pageSize)
  {
    if 0 < stream.contentSize && SizeFits(stream.contentSize, pageSize) {
      PagesFromSizeExact(stream.contentSize, pageSize);
      PagesForExact(stream.contentSize, pageSize);
      SpanIsProduct(|stream.pages|, pageSize);
    }
  }

  /** A directory that is stored at these roots is one that the constructor can read. */
  lemma StoredReadable(file: seq<byte>, pageSize: nat, directorySize: nat, roots: seq<int>, list: seq<int>,
                       entries: seq<Entry>)
    requires 0 < pageSize < INT32_LIMIT && Stored(file, pageSize, directorySize, roots, list, entries)
    ensures PagesFromSize(directorySize, pageSize) >= 0 && forall i | 0 <= i < |roots| :: roots[i] >= 0
    ensures PageList(file, pageSize, roots, PagesFromSize(directorySize, pageSize)) == list
    ensures DataStream(directorySize, list).Covered(pageSize)
  {
    RootsInFile(file, pageSize, roots, list);
    PageListExact(file, pageSize, roots, list);
    DirectoryCovered(DataStream(directorySize, list), pageSize);
  }

  /** What the buffer then holds. */
  lemma DirectoryLoaded(file: seq<byte>, pageSize: nat, directorySize: nat, roots: seq<int>, list: seq<int>,
                        entries: seq<Entry>, bytes: seq<byte>)
    requires 0 < pageSize < INT32_LIMIT && Stored(file, pageSize, directorySize, roots, list, entries)
    requires directorySize <= |bytes|
    requires forall k | 0 <= k < directorySize :: bytes[k] == Flat(file, pageSize, list)[k]
    ensures Directory(bytes, pageSize) == Some(StreamsOf(entries)) <==> AllFit(entries, pageSize)
  {
    Copied(bytes, Flat(file, pageSize, list), Encode(entries));
    DirectoryRoundTrip(bytes, entries, pageSize);
  }

  /** The two together, for every directory that may be stored at the roots. */
  lemma LoadRight(file: seq<byte>, pageSize: nat, directorySize: nat, roots: seq<int>, pages: seq<int>,
                  bytes: seq<byte>, ok: bool)
    requires 0 < pageSize < INT32_LIMIT && directorySize <= |bytes| && |pages| == PagesFromSize(directorySize, pageSize)
    requires pages == PageList(file, pageSize, roots, |pages|) && DataStream(directorySize, pages).Covered(pageSize)
    requires AllInFile(file, pageSize, pages) ==>
      ok && forall k | 0 <= k < directorySize :: bytes[k] == Flat(file, pageSize, pages)[k]
    ensures forall list, entries | Stored(file, pageSize, directorySize, roots, list, entries) ::
              ok && (Directory(bytes, pageSize) == Some(StreamsOf(entries)) <==> AllFit(entries, pageSize))
  {
    forall list, entries | Stored(file, pageSize, directorySize, roots, list, entries)
      ensures ok && (Directory(bytes, pageSize) == Some(StreamsOf(entries)) <==> AllFit(entries, pageSize))
    {
      StoredReadable(file, pageSize, directorySize, roots, list, entries);
      DirectoryLoaded(file, pageSize, directorySize, roots, list, entries, bytes);
    }
  }

  /** The first part of the constructor: the page list. */
  method ReadPageList(reader: PdbReader, roots: seq<int>, numPages: nat) returns (r: Option<seq<int>>)
    requires reader.pageSize > 0
    modifies reader
    ensures r.Some? <==> forall i | 0 <= i < |roots| :: roots[i] >= 0
    ensures r.Some? ==> r.value == PageList(reader.file, reader.pageSize, roots, numPages)
  {
    var buf := new byte[4 * numPages](_ => 0);
    assert buf[..] == Zeros(4 * numPages);
    var ok := ReadRoots(reader, roots, buf, numPages);
    r := if ok then Some(Ints(buf[..], 0, numPages)) else None;
  }

  /** The second part: the bytes of the directory. */
  method ReadDirectory(reader: PdbReader, directorySize: nat, roots: seq<int>, pages: seq<int>, buffer: array<byte>)
    returns (ok: bool)
    requires 0 < reader.pageSize < INT32_LIMIT && directorySize <= buffer.Length
    requires |pages| == PagesFromSize(directorySize, reader.pageSize)
    requires pages == PageList(reader.file, reader.pageSize, roots, |pages|)
    modifies reader, buffer
    ensures forall list, entries | Stored(reader.file, reader.pageSize, directorySize, roots, list, entries) ::
              ok && (Directory(buffer[..], reader.pageSize) == Some(StreamsOf(entries))
                     <==> AllFit(entries, reader.pageSize))
  {
    var stream := DataStream(directorySize, pages);
    forall list, entries | Stored(reader.file, reader.pageSize, directorySize, roots, list, entries)
      ensures stream.Covered(reader.pageSize)
    {
      StoredReadable(reader.file, reader.pageSize, directorySize, roots, list, entries);
    }
    if !stream.Covered(reader.pageSize) {
      return false;
    }
    ok := stream.Read(reader, 0, buffer, 0, directorySize);
    LoadRight(reader.file, reader.pageSize, directorySize, roots, pages, buffer[..], ok);
  }

  /** The constructor.  The buffer for the directory is rented: it may be longer than asked for
      and hold anything.  None stands for the exceptions thrown for a negative page count, for a
      page list that is too short, and for positions before the file. */
  method LoadDirectory(reader: PdbReader, directorySize: nat, roots: seq<int>, buffer: array<byte>)
    returns (r: Option<seq<DataStream>>)
    requires 0 < reader.pageSize < INT32_LIMIT && directorySize <= buffer.Length
    modifies reader, buffer
    ensures forall list, entries | Stored(reader.file, reader.pageSize, directorySize, roots, list, entries) ::
              r == Some(StreamsOf(entries)) <==> AllFit(entries, reader.pageSize)
  {
    var numPages := PagesFromSize(directorySize, reader.pageSize);
    forall list, entries | Stored(reader.file, reader.pageSize, directorySize, roots, list, entries)
      ensures numPages >= 0 && forall i | 0 <= i < |roots| :: roots[i] >= 0
    {
      StoredReadable(reader.file, reader.pageSize, directorySize, roots, list, entries);
    }
    if numPages < 0 {
      return None;
    }
    var pages :- ReadPageList(reader, roots, numPages);
    var ok := ReadDirectory(reader, directorySize, roots, pages, buffer);
    if !ok {
      return None;
    }
    r := ParseDirectory(buffer[..], reader.pageSize);
  }
}
