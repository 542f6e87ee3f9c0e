/**
 The named streams of a Windows PDB: a hash table stored as a heap of names, a vector of
 present bits and the buckets present, of which the reader makes a dictionary.
 */
module NameIndexes {
  import opened Options
  import opened Bytes

  // ---------------------------------------------------------------- present bits

  predicate Bit(w: nat, k: nat) {
    if k == 0 then w % 2 == 1 else Bit(w / 2, k - 1)
  }

  predicate IsSet(index: nat, words: seq<int>)
    requires forall i | 0 <= i < |words| :: words[i] >= 0
  {
    var word := index / 32;
    word < |words| && Bit(words[word], index % 32)
  }

  /** The word whose bits are the flags, lowest first. */
  function PackWord(flags: seq<bool>): nat {
    if flags == [] then 0 else (if flags[0] then 1 else 0) + 2 * PackWord(flags[1..])
  }

  function Pack(flags: seq<bool>): seq<int> {
    if |flags| <= 32 then [PackWord(flags)] else [PackWord(flags[..32])] + Pack(flags[32..])
  }

  function Pow2(n: nat): nat {
    if n == 0 then 1 else 2 * Pow2(n - 1)
  }

  lemma {:induction false} PackWordFits(flags: seq<bool>)
    ensures PackWord(flags) < Pow2(|flags|)
  {
    if flags != [] { PackWordFits(flags[1..]); }
  }

  lemma {:induction false} Pow2Monotone(m: nat, n: nat)
    requires m <= n
    ensures Pow2(m) <= Pow2(n)
  {
    if m < n { Pow2Monotone(m, n - 1); }
  }

  lemma Pow2Word()
    ensures Pow2(32) == UINT32_LIMIT
  {
    assert Pow2(8) == 0x100;
    assert Pow2(16) == 0x1_0000;
    assert Pow2(24) == 0x100_0000;
  }

  lemma {:induction false} BitOfPack(flags: seq<bool>, k: nat)
    requires k < |flags|
    ensures Bit(PackWord(flags), k) == flags[k]
  {
    if k > 0 {
      BitOfPack(flags[1..], k - 1);
      assert PackWord(flags) / 2 == PackWord(flags[1..]);
    }
  }

  /** Words for any present bits exist. */
  lemma {:induction false} PackedBits(flags: seq<bool>)
    ensures AllWords(Pack(flags))
    ensures forall i | 0 <= i < |flags| :: IsSet(i, Pack(flags)) == flags[i]
    decreases |flags|
  {
    var n := if |flags| <= 32 then |flags| else 32;
    PackWordFits(flags[..n]);
    Pow2Monotone(n, 32);
    Pow2Word();
    if |flags| <= 32 {
      assert flags[..n] == flags;
    } else {
      PackedBits(flags[32..]);
    }
    forall i | 0 <= i < |flags| ensures IsSet(i, Pack(flags)) == flags[i] {
      if i < 32 {
        BitOfPack(flags[..n], i);
      } else {
        assert Pack(flags) == [PackWord(flags[..32])] + Pack(flags[32..]);
        assert (i - 32) / 32 == i / 32 - 1 && (i - 32) % 32 == i % 32;
        assert IsSet(i - 32, Pack(flags[32..])) == flags[32..][i - 32];
      }
    }
  }

  predicate AllWords(words: seq<int>) {
    forall i | 0 <= i < |words| :: 0 <= words[i] < UINT32_LIMIT
  }

  // ---------------------------------------------------------------- the encoder

  /** A bucket: the name's place in the heap, its stream and the name. */
  datatype Slot = Empty | Full(place: int, stream: int, name: seq<byte>)

  datatype Table = Table(
    version: int, signature: int, age: int, guid: seq<byte>, heap: seq<byte>,
    count: int, present: seq<int>, deleted: seq<int>, slots: seq<Slot>)

  function PutWords(words: seq<int>): (r: seq<byte>)
    ensures |r| == 4 + 4 * |words|
  {
    Put32(|words|) + PutInts(words)
  }

  function PutSlots(slots: seq<Slot>): seq<byte> {
    if slots == [] then []
    else match slots[0]
      case Empty => PutSlots(slots[1..])
      case Full(place, stream, _) => (Put32(place) + Put32(stream)) + PutSlots(slots[1..])
  }

  function PutHead(t: Table): (r: seq<byte>)
    requires |t.guid| == 16
    ensures |r| == 32
  {
    Put32(t.version) + (Put32(t.signature) + (Put32(t.age) + (t.guid + Put32(|t.heap|))))
  }

  function PutCounts(t: Table): (r: seq<byte>)
    ensures |r| == 8
  {
    Put32(t.count) + Put32(|t.slots|)
  }

  function PutTail(t: Table): seq<byte> {
    PutCounts(t) + (PutWords(t.present) + (PutWords(t.deleted) + PutSlots(t.slots)))
  }

  function Encode(t: Table): seq<byte>
    requires |t.guid| == 16
  {
    PutHead(t) + (t.heap + PutTail(t))
  }

  predicate NoZero(name: seq<byte>) {
    forall i | 0 <= i < |name| :: name[i] != 0
  }

  /** The bytes hold the name of a bucket. */
  ghost predicate Holds(bs: seq<byte>, start: int, slot: Slot) {
    slot.Full? ==>
      && IsInt32(slot.place) && IsInt32(slot.stream) && NoZero(slot.name)
      && start + slot.place >= 0 && At(bs, start + slot.place, slot.name + [0])
  }

  predicate Marks(words: seq<int>, slots: seq<Slot>)
    requires AllWords(words)
  {
    forall i | 0 <= i < |slots| :: IsSet(i, words) == slots[i].Full?
  }

  ghost predicate WellFormed(t: Table) {
    && IsInt32(t.version) && IsInt32(t.signature) && IsInt32(t.age) && |t.guid| == 16
    && IsInt32(|t.heap|) && IsInt32(t.count) && IsInt32(|t.slots|)
    && IsInt32(|t.present|) && AllWords(t.present) && IsInt32(|t.deleted|) && AllWords(t.deleted)
    && Marks(t.present, t.slots)
    && forall i | 0 <= i < |t.slots| :: Holds(t.heap, 0, t.slots[i])
  }

  // ---------------------------------------------------------------- the reader

  datatype Named = Named(name: seq<byte>, stream: int)

  /** The dictionary files a name under its fold: names with the same fold are the same key. */
  type Index = map<seq<byte>, Named>

  datatype NameIndex = NameIndex(age: int, guid: seq<byte>, index: Index)

  /** The length of the text up to a zero byte or the end. */
  function TextLength(bits: seq<byte>, off: nat): (n: nat)
    requires off <= |bits|
    ensures off + n <= |bits|
    decreases |bits| - off
  {
    if off < |bits| && bits[off] != 0 then 1 + TextLength(bits, off + 1) else 0
  }

  function TextAt(bits: seq<byte>, off: int): Option<seq<byte>> {
    if 0 <= off <= |bits| then Some(bits[off..off + TextLength(bits, off)]) else None
  }

  /** A text is read from any offset inside the bytes or at their end: what comes before the next zero
      byte, or before the end. */
  lemma TextExact(bits: seq<byte>, off: int, text: seq<byte>)
    ensures TextAt(bits, off) == Some(text) <==>
      && 0 <= off && off + |text| <= |bits| && bits[off..off + |text|] == text && NoZero(text)
      && (off + |text| < |bits| ==> bits[off + |text|] == 0)
  {
    if 0 <= off <= |bits| {
      TextLengthExact(bits, off);
      if off + |text| <= |bits| && bits[off..off + |text|] == text && NoZero(text) {
        assert forall k | 0 <= k < |text| :: bits[off + k] == text[k];
      }
    }
  }

  lemma {:induction false} TextLengthExact(bits: seq<byte>, off: nat)
    requires off <= |bits|
    ensures var n := TextLength(bits, off);
      && (forall k | off <= k < off + n :: bits[k] != 0) && (off + n < |bits| ==> bits[off + n] == 0)
    decreases |bits| - off
  {
    if off < |bits| && bits[off] != 0 { TextLengthExact(bits, off + 1); }
  }

  /** Reads a text, and gives the offset behind its terminator. */
  method ReadCString(bits: seq<byte>, off: int) returns (r: Option<seq<byte>>, next: int)
    ensures r == TextAt(bits, off)
    ensures r.Some? ==> next == off + |r.value| + 1
  {
    if off < 0 || off > |bits| {
      return None, off;
    }
    var len := 0;
    while off + len < |bits| && bits[off + len] != 0
      invariant off + len <= |bits|
      invariant TextLength(bits, off) == len + TextLength(bits, off + len)
    {
      len := len + 1;
    }
    r, next := Some(bits[off..off + len]), off + len + 1;
  }

  /** `n` unsigned numbers after their count, and the offset behind them. */
  function WordsAt(bits: seq<byte>, off: int): (r: Option<(seq<int>, int)>)
    ensures r.Some? ==> AllWords(r.value.0)
  {
    var n :- ReadI32(bits, off);
    if n < 0 || off + 4 + 4 * n > |bits| then None
    else
      Limits();
      Some((seq(n, i requires 0 <= i < n => U32(bits, off + 4 + 4 * i)), off + 4 + 4 * n))
  }

  method ReadWords(bits: seq<byte>, off: int) returns (r: Option<(seq<int>, int)>)
    ensures r == WordsAt(bits, off)
  {
    if off < 0 || off + 4 > |bits| {
      return None;
    }
    var n := I32(bits, off);
    if n < 0 {
      return None;
    }
    var words, offset := [], off + 4;
    for i := 0 to n
      invariant offset == off + 4 + 4 * i <= |bits|
      invariant |words| == i && forall k | 0 <= k < i :: words[k] == U32(bits, off + 4 + 4 * k)
    {
      if offset + 4 > |bits| {
        return None;
      }
      words, offset := words + [U32(bits, offset)], offset + 4;
    }
    assert words == WordsAt(bits, off).value.0;
    r := Some((words, offset));
  }

  /** The loop over the buckets: the offset, the dictionary and the buckets read. */
  datatype Reading = Reading(offset: int, index: Index, read: nat)

  function ReadSlot(bits: seq<byte>, beg: int, fold: seq<byte> -> seq<byte>, st: Reading): Option<Reading> {
    var place :- ReadI32(bits, st.offset);
    var stream :- ReadI32(bits, st.offset + 4);
    var name :- TextAt(bits, beg + place);
    if fold(name) in st.index then None
    else Some(Reading(st.offset + 8, st.index[fold(name) := Named(name, stream)], st.read + 1))
  }

  function ReadSlots(bits: seq<byte>, beg: int, fold: seq<byte> -> seq<byte>, present: seq<int>, max: int, i: nat,
                     st: Reading): Option<Reading>
    requires AllWords(present)
    decreases max - i
  {
    if i >= max then Some(st)
    else if IsSet(i, present) then
      var next :- ReadSlot(bits, beg, fold, st);
      ReadSlots(bits, beg, fold, present, max, i + 1, next)
    else ReadSlots(bits, beg, fold, present, max, i + 1, st)
  }

  /** The part behind the heap; fails like the reader, which also checks the count. */
  function LoadTail(bits: seq<byte>, beg: int, nxt: int, fold: seq<byte> -> seq<byte>): Option<Index> {
    var count :- ReadI32(bits, nxt);
    var max :- ReadI32(bits, nxt + 4);
    var present :- WordsAt(bits, nxt + 8);
    var deleted :- WordsAt(bits, present.1);
    if max < 0 then None
    else
      var st :- ReadSlots(bits, beg, fold, present.0, max, 0, Reading(deleted.1, map[], 0));
      if st.read != count then None else Some(st.index)
  }

  function Load(bits: seq<byte>, fold: seq<byte> -> seq<byte>): Option<NameIndex> {
    var heapSize :- ReadI32(bits, 28);
    var index :- LoadTail(bits, 32, 32 + heapSize, fold);
    Some(NameIndex(I32(bits, 8), bits[12..28], index))
  }

  method ReadBucket(bits: seq<byte>, beg: int, fold: seq<byte> -> seq<byte>, st: Reading) returns (r: Option<Reading>)
    ensures r == ReadSlot(bits, beg, fold, st)
  {
    if st.offset < 0 || st.offset + 8 > |bits| {
      return None;
    }
    var place, stream := I32(bits, st.offset), I32(bits, st.offset + 4);
    var name, behind :- ReadCString(bits, beg + place);
    if fold(name) in st.index {
      return None;
    }
    r := Some(Reading(st.offset + 8, st.index[fold(name) := Named(name, stream)], st.read + 1));
  }

  method ReadTail(bits: seq<byte>, beg: int, nxt: int, fold: seq<byte> -> seq<byte>) returns (r: Option<Index>)
    ensures r == LoadTail(bits, beg, nxt, fold)
  {
    if nxt < 0 || nxt + 8 > |bits| {
      return None;
    }
    var count, max := I32(bits, nxt), I32(bits, nxt + 4);
    var present :- ReadWords(bits, nxt + 8);
    var deleted :- ReadWords(bits, present.1);
    if max < 0 {
      return None;
    }
    var start := Reading(deleted.1, map[], 0);
    var st := start;
    for i := 0 to max
      invariant ReadSlots(bits, beg, fold, present.0, max, i, st)
        == ReadSlots(bits, beg, fold, present.0, max, 0, start)
    {
      if IsSet(i, present.0) {
        st :- ReadBucket(bits, beg, fold, st);
      }
    }
    r := if st.read != count then None else Some(st.index);
  }

  method LoadNameIndex(bits: seq<byte>, fold: seq<byte> -> seq<byte>) returns (r: Option<NameIndex>)
    ensures r == Load(bits, fold)
  {
    if |bits| < 32 {
      return None;
    }
    var index :- ReadTail(bits, 32, 32 + I32(bits, 28), fold);
    r := Some(NameIndex(I32(bits, 8), bits[12..28], index));
  }

  // ---------------------------------------------------------------- what the dictionary is

  /** Adding the names of buckets to a dictionary, which refuses a key it has. */
  function AddAll(fold: seq<byte> -> seq<byte>, index: Index, slots: seq<Slot>): Option<Index>
    decreases |slots|
  {
    if slots == [] then Some(index)
    else match slots[0]
      case Empty => AddAll(fold, index, slots[1..])
      case Full(_, stream, name) =>
        if fold(name) in index then None
        else AddAll(fold, index[fold(name) := Named(name, stream)], slots[1..])
  }

  function Fulls(slots: seq<Slot>): nat {
    if slots == [] then 0 else (if slots[0].Full? then 1 else 0) + Fulls(slots[1..])
  }

  predicate Clash(fold: seq<byte> -> seq<byte>, a: Slot, b: Slot) {
    a.Full? && b.Full? && fold(a.name) == fold(b.name)
  }

  predicate DistinctNames(fold: seq<byte> -> seq<byte>, slots: seq<Slot>) {
    forall i, j | 0 <= i < j < |slots| :: !Clash(fold, slots[i], slots[j])
  }

  /** The dictionary has exactly the names of the buckets, each with its stream. */
  ghost predicate IsIndex(fold: seq<byte> -> seq<byte>, slots: seq<Slot>, index: Index) {
    && (forall i | 0 <= i < |slots| && slots[i].Full? ::
          fold(slots[i].name) in index && index[fold(slots[i].name)] == Named(slots[i].name, slots[i].stream))
    && forall key | key in index :: exists i :: 0 <= i < |slots| && slots[i].Full? && fold(slots[i].name) == key
  }

  predicate ClashesWith(fold: seq<byte> -> seq<byte>, index: Index, slots: seq<Slot>) {
    exists i | 0 <= i < |slots| :: slots[i].Full? && fold(slots[i].name) in index
  }

  /** Adding from a dictionary on succeeds exactly when no key comes twice. */
  lemma {:induction false} AddAllSucceeds(fold: seq<byte> -> seq<byte>, index: Index, slots: seq<Slot>)
    ensures AddAll(fold, index, slots).Some? <==> DistinctNames(fold, slots) && !ClashesWith(fold, index, slots)
    decreases |slots|
  {
    if slots != [] {
      var rest := slots[1..];
      assert forall i | 0 < i < |slots| :: slots[i] == rest[i - 1];
      if slots[0].Empty? {
        AddAllSucceeds(fold, index, rest);
      } else if fold(slots[0].name) in index {
        assert ClashesWith(fold, index, slots);
      } else {
        var more := index[fold(slots[0].name) := Named(slots[0].name, slots[0].stream)];
        AddAllSucceeds(fold, more, rest);
        FullFirst(fold, index, more, slots);
      }
    }
  }

  lemma FullFirst(fold: seq<byte> -> seq<byte>, index: Index, more: Index, slots: seq<Slot>)
    requires slots != [] && slots[0].Full? && fold(slots[0].name) !in index
    requires more == index[fold(slots[0].name) := Named(slots[0].name, slots[0].stream)]
    ensures DistinctNames(fold, slots) && !ClashesWith(fold, index, slots)
       <==> DistinctNames(fold, slots[1..]) && !ClashesWith(fold, more, slots[1..])
  {
    var rest := slots[1..];
    if ClashesWith(fold, more, rest) {
      var i :| 0 <= i < |rest| && rest[i].Full? && fold(rest[i].name) in more;
      assert rest[i] == slots[i + 1];
      if fold(rest[i].name) !in index { assert Clash(fold, slots[0], slots[i + 1]); }
    } else {
      forall j | 0 < j < |slots| ensures !Clash(fold, slots[0], slots[j]) {
        assert rest[j - 1] == slots[j];
      }
    }
  }

  /** What was in the dictionary stays, and what comes new is a bucket's. */
  lemma {:induction false} AddAllKeeps(fold: seq<byte> -> seq<byte>, index: Index, slots: seq<Slot>)
    requires AddAll(fold, index, slots).Some?
    ensures var all := AddAll(fold, index, slots).value;
      && (forall key | key in index :: key in all && all[key] == index[key])
      && (forall i | 0 <= i < |slots| && slots[i].Full? ::
            fold(slots[i].name) in all && all[fold(slots[i].name)] == Named(slots[i].name, slots[i].stream))
      && forall key | key in all && key !in index ::
           exists i :: 0 <= i < |slots| && slots[i].Full? && fold(slots[i].name) == key
    decreases |slots|
  {
    if slots != [] {
      var rest := slots[1..];
      var all := AddAll(fold, index, slots).value;
      var more := if slots[0].Full? then index[fold(slots[0].name) := Named(slots[0].name, slots[0].stream)] else index;
      AddAllKeeps(fold, more, rest);
      forall i | 0 <= i < |slots| && slots[i].Full?
        ensures fold(slots[i].name) in all && all[fold(slots[i].name)] == Named(slots[i].name, slots[i].stream)
      {
        if i > 0 { assert rest[i - 1] == slots[i]; } else { assert fold(slots[0].name) in more; }
      }
      forall key | key in all && key !in index
        ensures exists i :: 0 <= i < |slots| && slots[i].Full? && fold(slots[i].name) == key
      {
        if key in more {
          assert fold(slots[0].name) == key;
        } else {
          var i :| 0 <= i < |rest| && rest[i].Full? && fold(rest[i].name) == key;
          assert slots[i + 1] == rest[i];
        }
      }
    }
  }

  /** The dictionary of the buckets. */
  lemma AddAllExact(fold: seq<byte> -> seq<byte>, slots: seq<Slot>)
    ensures AddAll(fold, map[], slots).Some? <==> DistinctNames(fold, slots)
    ensures AddAll(fold, map[], slots).Some? ==> IsIndex(fold, slots, AddAll(fold, map[], slots).value)
  {
    AddAllSucceeds(fold, map[], slots);
    if AddAll(fold, map[], slots).Some? {
      AddAllKeeps(fold, map[], slots);
    }
  }

  function PresentFrom(words: seq<int>, n: nat, max: nat): set<nat>
    requires AllWords(words)
  {
    set i: nat | n <= i < max && IsSet(i, words)
  }

  lemma PresentStep(words: seq<int>, n: nat, max: nat)
    requires AllWords(words) && n < max
    ensures |PresentFrom(words, n, max)| == |PresentFrom(words, n + 1, max)| + if IsSet(n, words) then 1 else 0
  {
    var later := PresentFrom(words, n + 1, max);
    assert PresentFrom(words, n, max) == if IsSet(n, words) then {n} + later else later;
  }

  /** The number of buckets is the number of present bits below the bucket limit. */
  lemma {:induction false} FullsArePresent(words: seq<int>, slots: seq<Slot>, n: nat)
    requires AllWords(words) && Marks(words, slots) && n <= |slots|
    ensures Fulls(slots[n..]) == |PresentFrom(words, n, |slots|)|
    decreases |slots| - n
  {
    if n == |slots| {
      assert PresentFrom(words, n, n) == {};
    } else {
      FullsArePresent(words, slots, n + 1);
      PresentStep(words, n, |slots|);
      assert slots[n..][1..] == slots[n + 1..];
    }
  }

  // ---------------------------------------------------------------- the reader inverts the encoder

  lemma {:induction false} TextLengthIs(bits: seq<byte>, off: nat, name: seq<byte>)
    requires NoZero(name) && At(bits, off, name + [0])
    ensures TextLength(bits, off) == |name|
    decreases |name|
  {
    assert (name + [0])[|name|] == 0 && bits[off + |name|] == 0;
    if name != [] {
      assert bits[off + 0] == (name + [0])[0] == name[0];
      forall k | 0 <= k < |name[1..] + [0]| ensures bits[off + 1 + k] == (name[1..] + [0])[k] {
        assert (name + [0])[k + 1] == (name[1..] + [0])[k];
      }
      TextLengthIs(bits, off + 1, name[1..]);
    }
  }

  lemma TextRoundTrip(bits: seq<byte>, off: nat, name: seq<byte>)
    requires NoZero(name) && At(bits, off, name + [0])
    ensures TextAt(bits, off) == Some(name)
  {
    TextLengthIs(bits, off, name);
    forall k | 0 <= k < |name| ensures bits[off + k] == name[k] {
      assert (name + [0])[k] == name[k];
    }
    assert bits[off..off + |name|] == name;
  }

  lemma SlotRoundTrip(bits: seq<byte>, beg: nat, fold: seq<byte> -> seq<byte>, st: Reading, slot: Slot)
    requires slot.Full? && Holds(bits, beg, slot) && st.offset >= 0
    requires At(bits, st.offset, Put32(slot.place) + Put32(slot.stream))
    ensures ReadSlot(bits, beg, fold, st)
         == if fold(slot.name) in st.index then None
            else Some(Reading(st.offset + 8, st.index[fold(slot.name) := Named(slot.name, slot.stream)], st.read + 1))
  {
    AtParts(bits, st.offset, Put32(slot.place), Put32(slot.stream), st.offset + 4);
    I32RoundTrip(slot.place, bits, st.offset);
    I32RoundTrip(slot.stream, bits, st.offset + 4);
    TextRoundTrip(bits, beg + slot.place, slot.name);
  }

  /** A bucket that is followed by others. */
  lemma SlotThenRest(bits: seq<byte>, beg: nat, fold: seq<byte> -> seq<byte>, st: Reading, slot: Slot, rest: seq<byte>)
    requires slot.Full? && Holds(bits, beg, slot) && st.offset >= 0
    requires At(bits, st.offset, (Put32(slot.place) + Put32(slot.stream)) + rest)
    ensures ReadSlot(bits, beg, fold, st)
         == if fold(slot.name) in st.index then None
            else Some(Reading(st.offset + 8, st.index[fold(slot.name) := Named(slot.name, slot.stream)], st.read + 1))
    ensures At(bits, st.offset + 8, rest)
  {
    AtParts(bits, st.offset, Put32(slot.place) + Put32(slot.stream), rest, st.offset + 8);
    SlotRoundTrip(bits, beg, fold, st, slot);
  }

  lemma {:induction false} SlotsRoundTrip(
      bits: seq<byte>, beg: nat, fold: seq<byte> -> seq<byte>, present: seq<int>, slots: seq<Slot>, i: nat, st: Reading)
    requires AllWords(present) && Marks(present, slots) && i <= |slots| && st.offset >= 0
    requires forall k | 0 <= k < |slots| :: Holds(bits, beg, slots[k])
    requires At(bits, st.offset, PutSlots(slots[i..]))
    ensures var r := ReadSlots(bits, beg, fold, present, |slots|, i, st);
      && r.Some? == AddAll(fold, st.index, slots[i..]).Some?
      && (r.Some? ==> r.value.index == AddAll(fold, st.index, slots[i..]).value
                      && r.value.read == st.read + Fulls(slots[i..]))
    decreases |slots| - i
  {
    if i < |slots| {
      assert slots[i..][1..] == slots[i + 1..];
      var slot := slots[i];
      if slot.Empty? {
        SlotsRoundTrip(bits, beg, fold, present, slots, i + 1, st);
      } else {
        SlotThenRest(bits, beg, fold, st, slot, PutSlots(slots[i + 1..]));
        var next := ReadSlot(bits, beg, fold, st);
        if next.Some? {
          SlotsRoundTrip(bits, beg, fold, present, slots, i + 1, next.value);
        }
      }
    }
  }

  lemma WordsRoundTrip(bits: seq<byte>, off: nat, words: seq<int>)
    requires AllWords(words) && IsInt32(|words|) && At(bits, off, PutWords(words))
    ensures WordsAt(bits, off) == Some((words, off + 4 + 4 * |words|))
  {
    AtParts(bits, off, Put32(|words|), PutInts(words), off + 4);
    I32RoundTrip(|words|, bits, off);
    WordsPlaced(bits, off + 4, words);
    WordsAre(bits, off + 4, words);
  }

  lemma WordsPlaced(bits: seq<byte>, off: nat, words: seq<int>)
    requires AllWords(words) && At(bits, off, PutInts(words))
    ensures off + 4 * |words| <= |bits| && forall i | 0 <= i < |words| :: U32(bits, off + 4 * i) == words[i]
  {
    forall i | 0 <= i < |words| ensures U32(bits, off + 4 * i) == words[i] {
      WordAt(words, bits, off, i);
    }
  }

  lemma WordsAre(bits: seq<byte>, off: nat, words: seq<int>)
    requires off + 4 * |words| <= |bits| && forall i | 0 <= i < |words| :: U32(bits, off + 4 * i) == words[i]
    ensures seq(|words|, i requires 0 <= i < |words| => U32(bits, off + 4 * i)) == words
  {
  }

  lemma CountsRoundTrip(bits: seq<byte>, off: nat, t: Table)
    requires IsInt32(t.count) && IsInt32(|t.slots|) && At(bits, off, PutCounts(t))
    ensures ReadI32(bits, off) == Some(t.count) && ReadI32(bits, off + 4) == Some(|t.slots|)
  {
    AtParts(bits, off, Put32(t.count), Put32(|t.slots|), off + 4);
    I32RoundTrip(t.count, bits, off);
    I32RoundTrip(|t.slots|, bits, off + 4);
  }

  /** Where the parts of the tail stand. */
  lemma TailParts(bits: seq<byte>, off: nat, t: Table, afterPresent: nat, afterDeleted: nat)
    requires At(bits, off, PutTail(t))
    requires afterPresent == off + 12 + 4 * |t.present| && afterDeleted == afterPresent + 4 + 4 * |t.deleted|
    ensures At(bits, off, PutCounts(t)) && At(bits, off + 8, PutWords(t.present))
    ensures At(bits, afterPresent, PutWords(t.deleted)) && At(bits, afterDeleted, PutSlots(t.slots))
  {
    var deleted, slots := PutWords(t.deleted), PutSlots(t.slots);
    AtParts(bits, off, PutCounts(t), PutWords(t.present) + (deleted + slots), off + 8);
    AtParts(bits, off + 8, PutWords(t.present), deleted + slots, afterPresent);
    AtParts(bits, afterPresent, deleted, slots, afterDeleted);
  }

  lemma TailNumbers(bits: seq<byte>, off: nat, t: Table, afterPresent: nat, afterDeleted: nat)
    requires WellFormed(t) && At(bits, off, PutTail(t))
    requires afterPresent == off + 12 + 4 * |t.present| && afterDeleted == afterPresent + 4 + 4 * |t.deleted|
    ensures ReadI32(bits, off) == Some(t.count) && ReadI32(bits, off + 4) == Some(|t.slots|)
    ensures WordsAt(bits, off + 8) == Some((t.present, afterPresent))
    ensures WordsAt(bits, afterPresent) == Some((t.deleted, afterDeleted))
    ensures At(bits, afterDeleted, PutSlots(t.slots))
  {
    TailParts(bits, off, t, afterPresent, afterDeleted);
    CountsRoundTrip(bits, off, t);
    WordsRoundTrip(bits, off + 8, t.present);
    WordsRoundTrip(bits, afterPresent, t.deleted);
  }

  lemma TailRoundTrip(bits: seq<byte>, beg: nat, off: nat, t: Table, fold: seq<byte> -> seq<byte>)
    requires WellFormed(t) && At(bits, off, PutTail(t))
    requires forall k | 0 <= k < |t.slots| :: Holds(bits, beg, t.slots[k])
    ensures LoadTail(bits, beg, off, fold)
         == if t.count == Fulls(t.slots) then AddAll(fold, map[], t.slots) else None
  {
    var afterPresent := off + 12 + 4 * |t.present|;
    var afterDeleted := afterPresent + 4 + 4 * |t.deleted|;
    TailNumbers(bits, off, t, afterPresent, afterDeleted);
    assert t.slots[0..] == t.slots;
    SlotsRoundTrip(bits, beg, fold, t.present, t.slots, 0, Reading(afterDeleted, map[], 0));
  }

  lemma HeadRoundTrip(bits: seq<byte>, t: Table)
    requires WellFormed(t) && At(bits, 0, PutHead(t))
    ensures I32(bits, 8) == t.age && bits[12..28] == t.guid && I32(bits, 28) == |t.heap|
  {
    var last := Put32(|t.heap|);
    AtParts(bits, 0, Put32(t.version), Put32(t.signature) + (Put32(t.age) + (t.guid + last)), 4);
    AtParts(bits, 4, Put32(t.signature), Put32(t.age) + (t.guid + last), 8);
    AtParts(bits, 8, Put32(t.age), t.guid + last, 12);
    AtParts(bits, 12, t.guid, last, 28);
    I32RoundTrip(t.age, bits, 8);
    I32RoundTrip(|t.heap|, bits, 28);
    assert forall k | 0 <= k < 16 :: bits[12 + k] == t.guid[k];
  }

  lemma HeldInBits(bits: seq<byte>, start: nat, heap: seq<byte>, slot: Slot)
    requires At(bits, start, heap) && Holds(heap, 0, slot)
    ensures Holds(bits, start, slot)
  {
    if slot.Full? {
      var text := slot.name + [0];
      forall k | 0 <= k < |text| ensures bits[start + slot.place + k] == text[k] {
        assert heap[0 + slot.place + k] == text[k];
      }
    }
  }

  /** Whatever the buckets' placement, the reader's result is the encoded dictionary, and it
      succeeds exactly when the names are distinct up to folding and the count is the number of
      buckets present. */
  lemma LoadExact(bits: seq<byte>, t: Table, fold: seq<byte> -> seq<byte>)
    requires WellFormed(t) && At(bits, 0, Encode(t))
    ensures Load(bits, fold).Some? <==> DistinctNames(fold, t.slots) && t.count == Fulls(t.slots)
    ensures Load(bits, fold).Some? ==>
      var r := Load(bits, fold).value; r.age == t.age && r.guid == t.guid && IsIndex(fold, t.slots, r.index)
  {
    LoadIs(bits, t, fold);
    AddAllExact(fold, t.slots);
  }

  lemma LoadIs(bits: seq<byte>, t: Table, fold: seq<byte> -> seq<byte>)
    requires WellFormed(t) && At(bits, 0, Encode(t))
    ensures var index := AddAll(fold, map[], t.slots);
      Load(bits, fold) == if t.count == Fulls(t.slots) && index.Some? then Some(NameIndex(t.age, t.guid, index.value))
                          else None
  {
    HeadPlaced(bits, t);
    TailLoaded(bits, t, fold);
    LoadOf(bits, fold);
  }

  lemma LoadOf(bits: seq<byte>, fold: seq<byte> -> seq<byte>)
    requires |bits| >= 32
    ensures var index := LoadTail(bits, 32, 32 + I32(bits, 28), fold);
      Load(bits, fold) == if index.Some? then Some(NameIndex(I32(bits, 8), bits[12..28], index.value)) else None
  {
  }

  lemma HeadPlaced(bits: seq<byte>, t: Table)
    requires WellFormed(t) && At(bits, 0, Encode(t))
    ensures |bits| >= 32 && I32(bits, 8) == t.age && bits[12..28] == t.guid && I32(bits, 28) == |t.heap|
  {
    PartsPlaced(bits, t);
    HeadRoundTrip(bits, t);
  }

  lemma TailLoaded(bits: seq<byte>, t: Table, fold: seq<byte> -> seq<byte>)
    requires WellFormed(t) && At(bits, 0, Encode(t))
    ensures LoadTail(bits, 32, 32 + |t.heap|, fold)
         == if t.count == Fulls(t.slots) then AddAll(fold, map[], t.slots) else None
  {
    PartsPlaced(bits, t);
    forall k | 0 <= k < |t.slots| ensures Holds(bits, 32, t.slots[k]) {
      HeldInBits(bits, 32, t.heap, t.slots[k]);
    }
    TailRoundTrip(bits, 32, 32 + |t.heap|, t, fold);
  }

  lemma PartsPlaced(bits: seq<byte>, t: Table)
    requires |t.guid| == 16 && At(bits, 0, Encode(t))
    ensures At(bits, 0, PutHead(t)) && At(bits, 32, t.heap) && At(bits, 32 + |t.heap|, PutTail(t))
  {
    AtParts(bits, 0, PutHead(t), t.heap + PutTail(t), 32);
    AtParts(bits, 32, t.heap, PutTail(t), 32 + |t.heap|);
  }
}
