/**
 The symbol records of a module in a Windows PDB: each starts with its length and its kind,
 and the reader looks for the managed procedure with a given token.
 */
module Symbols {
  import opened Options
  import opened Bytes

  const C13_SIGNATURE := 4
  const S_GMANPROC: nat := 0x112a
  const S_LMANPROC: nat := 0x112b

  /** The size of the reader's struct, which has padding, and of the packed symbol in a file. */
  const PROC_SIZE: nat := 40
  const PACKED_SIZE: nat := 37

  datatype ManProcSym = ManProcSym(
    parent: nat, end: nat, next: nat, len: nat, dbgStart: nat, dbgEnd: nat, token: nat, off: nat,
    seg: nat, flags: byte, retReg: nat)

  predicate IsProc(kind: nat) {
    kind == S_GMANPROC || kind == S_LMANPROC
  }

  // ---------------------------------------------------------------- the encoder

  datatype Record = Proc(global: bool, sym: ManProcSym, name: seq<byte>) | Other(kind: nat, body: seq<byte>)

  function Words(s: ManProcSym): (r: seq<int>)
    ensures |r| == 8
  {
    [s.parent, s.end, s.next, s.len, s.dbgStart, s.dbgEnd, s.token, s.off]
  }

  /** The symbol as it is stored: fields one behind the other. */
  function PutProc(s: ManProcSym): (r: seq<byte>)
    ensures |r| == PACKED_SIZE
  {
    PutInts(Words(s)) + (Put16(s.seg) + ([s.flags] + Put16(s.retReg)))
  }

  function KindOf(r: Record): nat {
    match r
    case Proc(global, _, _) => if global then 0x112a else 0x112b
    case Other(kind, _) => kind
  }

  function BodyOf(r: Record): seq<byte> {
    match r
    case Proc(_, sym, name) => PutProc(sym) + name
    case Other(_, body) => body
  }

  /** The length counts the kind and the body. */
  function PutRecord(r: Record): (bs: seq<byte>)
    ensures |bs| == 4 + |BodyOf(r)|
  {
    Put16(2 + |BodyOf(r)|) + (Put16(KindOf(r)) + BodyOf(r))
  }

  function PutRecords(rs: seq<Record>): seq<byte> {
    if rs == [] then [] else PutRecord(rs[0]) + PutRecords(rs[1..])
  }

  predicate WellFormedProc(s: ManProcSym) {
    && (forall i | 0 <= i < 8 :: 0 <= Words(s)[i] < UINT32_LIMIT)
    && s.seg < 0x1_0000 && s.retReg < 0x1_0000
  }

  predicate WellFormed(r: Record) {
    && 2 + |BodyOf(r)| < 0x1_0000
    && match r
       case Proc(_, sym, _) => WellFormedProc(sym)
       case Other(kind, _) => kind < 0x1_0000 && kind != 0x112a && kind != 0x112b
  }

  predicate AllWellFormed(rs: seq<Record>) {
    forall i | 0 <= i < |rs| :: WellFormed(rs[i])
  }

  // ---------------------------------------------------------------- the reader

  datatype Result = Failed | Missing | Found(proc: ManProcSym)

  /** The struct at an offset. */
  function ProcAt(bits: seq<byte>, off: nat): ManProcSym
    requires off + PROC_SIZE <= |bits|
  {
    ManProcSym(U32(bits, off), U32(bits, off + 4), U32(bits, off + 8), U32(bits, off + 12), U32(bits, off + 16),
               U32(bits, off + 20), U32(bits, off + 24), U32(bits, off + 28),
               U16(bits, off + 32), bits[off + 34], U16(bits, off + 36))
  }

  /** The search from the record at an offset on: fails when a number or a struct lies outside
      the bytes. */
  function Search(bits: seq<byte>, limit: int, token: nat, off: nat): Result
    decreases limit - off
  {
    if off >= limit then Missing
    else if off + 4 > |bits| then Failed
    else
      var stop := off + 2 + U16(bits, off);
      if IsProc(U16(bits, off + 2)) then
        if off + 4 + PROC_SIZE > |bits| then Failed
        else if ProcAt(bits, off + 4).token == token then Found(ProcAt(bits, off + 4))
        else Search(bits, limit, token, stop)
      else Search(bits, limit, token, stop)
  }

  function SearchModule(bits: seq<byte>, symbolBytes: int, token: nat): Result {
    if ReadI32(bits, 0) != Some(C13_SIGNATURE) then Failed else Search(bits, symbolBytes, token, 4)
  }

  method TryGetManProcSym(bits: seq<byte>, symbolBytes: int, token: nat) returns (r: Result)
    ensures r == SearchModule(bits, symbolBytes, token)
  {
    if |bits| < 4 || I32(bits, 0) != C13_SIGNATURE {
      return Failed;
    }
    var offset := 4;
    while offset < symbolBytes
      invariant offset >= 0
      invariant Search(bits, symbolBytes, token, offset) == SearchModule(bits, symbolBytes, token)
      decreases symbolBytes - offset
    {
      if offset + 4 > |bits| {
        return Failed;
      }
      var stop := offset + 2 + U16(bits, offset);
      if IsProc(U16(bits, offset + 2)) {
        if offset + 4 + PROC_SIZE > |bits| {
          return Failed;
        }
        var proc := ProcAt(bits, offset + 4);
        if proc.token == token {
          return Found(proc);
        }
      }
      offset := stop;
    }
    r := Missing;
  }

  // ---------------------------------------------------------------- the reader inverts the encoder

  lemma WordsRoundTrip(s: ManProcSym, bs: seq<byte>, off: nat)
    requires WellFormedProc(s) && At(bs, off, PutInts(Words(s)))
    ensures U32(bs, off) == s.parent && U32(bs, off + 4) == s.end && U32(bs, off + 8) == s.next
    ensures U32(bs, off + 12) == s.len && U32(bs, off + 16) == s.dbgStart && U32(bs, off + 20) == s.dbgEnd
    ensures U32(bs, off + 24) == s.token && U32(bs, off + 28) == s.off
  {
    var xs := Words(s);
    WordAt(xs, bs, off, 0); WordAt(xs, bs, off, 1); WordAt(xs, bs, off, 2); WordAt(xs, bs, off, 3);
    WordAt(xs, bs, off, 4); WordAt(xs, bs, off, 5); WordAt(xs, bs, off, 6); WordAt(xs, bs, off, 7);
  }

  lemma Bytes16(n: nat)
    requires n < 0x1_0000
    ensures Put16(n) == [n % 0x100, n / 0x100]
  {
    assert Put(n / 0x100 / 0x100, 0) == [];
    assert Put(n / 0x100, 1) == [n / 0x100 % 0x100];
  }

  lemma Number16(bs: seq<byte>, off: nat)
    requires off + 2 <= |bs|
    ensures U16(bs, off) == bs[off] + 0x100 * (bs[off + 1] as int)
  {
    assert Number(bs, off + 2, 0) == 0;
    assert Number(bs, off + 1, 1) == bs[off + 1];
  }

  /** The fields after the words, at their places in the file. */
  lemma TailPlaces(s: ManProcSym, bs: seq<byte>, off: nat)
    requires WellFormedProc(s) && At(bs, off, Put16(s.seg) + ([s.flags] + Put16(s.retReg)))
    ensures U16(bs, off) == s.seg && bs[off + 2] == s.flags && bs[off + 4] == s.retReg / 0x100
  {
    var flags: seq<byte> := [s.flags];
    AtConcat(bs, off, Put16(s.seg), flags + Put16(s.retReg));
    AtConcat(bs, off + 2, flags, Put16(s.retReg));
    U16RoundTrip(s.seg, bs, off);
    assert bs[off + 2 + 0] == flags[0];
    Bytes16(s.retReg);
    assert bs[off + 3 + 1] == Put16(s.retReg)[1];
  }

  /** What the reader's struct makes of a packed symbol: every field is right but the last, which
      is read one byte too far on. */
  lemma ProcSeen(s: ManProcSym, bs: seq<byte>, off: nat)
    requires WellFormedProc(s) && At(bs, off, PutProc(s)) && off + PROC_SIZE <= |bs|
    ensures ProcAt(bs, off) == s.(retReg := s.retReg / 0x100 + 0x100 * (bs[off + PACKED_SIZE] as int))
  {
    AtConcat(bs, off, PutInts(Words(s)), Put16(s.seg) + ([s.flags] + Put16(s.retReg)));
    WordsRoundTrip(s, bs, off);
    TailPlaces(s, bs, off + 32);
    Number16(bs, off + 36);
  }

  /** The last field is right exactly when both its bytes and the one behind them are equal. */
  lemma RetRegExact(s: ManProcSym, bs: seq<byte>, off: nat)
    requires WellFormedProc(s) && At(bs, off, PutProc(s)) && off + PROC_SIZE <= |bs|
    ensures ProcAt(bs, off) == s <==> s.retReg % 0x100 == s.retReg / 0x100 == bs[off + PACKED_SIZE]
  {
    ProcSeen(s, bs, off);
  }

  /** The start of an encoded record. */
  lemma RecordHead(r: Record, bs: seq<byte>, off: nat)
    requires WellFormed(r) && At(bs, off, PutRecord(r))
    ensures off + 4 <= |bs| && U16(bs, off) == 2 + |BodyOf(r)| && U16(bs, off + 2) == KindOf(r)
    ensures At(bs, off + 4, BodyOf(r))
  {
    AtConcat(bs, off, Put16(2 + |BodyOf(r)|), Put16(KindOf(r)) + BodyOf(r));
    AtConcat(bs, off + 2, Put16(KindOf(r)), BodyOf(r));
    U16RoundTrip(2 + |BodyOf(r)|, bs, off);
    U16RoundTrip(KindOf(r), bs, off + 2);
  }

  predicate Has(r: Record, token: nat) {
    r.Proc? && r.sym.token == token
  }

  /** The symbol as the struct shows it: the last field may differ. */
  predicate Shows(proc: ManProcSym, s: ManProcSym) {
    proc == s.(retReg := proc.retReg)
  }

  /** One step of the search over an encoded record that the struct does not overrun. */
  lemma SearchStep(bits: seq<byte>, limit: int, token: nat, off: nat, r: Record)
    requires WellFormed(r) && At(bits, off, PutRecord(r)) && off < limit
    requires r.Proc? ==> off + 4 + PROC_SIZE <= |bits|
    ensures var found := Search(bits, limit, token, off);
      if Has(r, token) then found.Found? && Shows(found.proc, r.sym)
      else found == Search(bits, limit, token, off + |PutRecord(r)|)
  {
    RecordHead(r, bits, off);
    if r.Proc? {
      AtConcat(bits, off + 4, PutProc(r.sym), r.name);
      ProcSeen(r.sym, bits, off + 4);
    }
  }

  /** The answer on the records themselves. */
  ghost predicate Answers(rs: seq<Record>, token: nat, answer: Result) {
    match answer
    case Failed => false
    case Missing => forall i | 0 <= i < |rs| :: !Has(rs[i], token)
    case Found(proc) => exists i :: 0 <= i < |rs| && Has(rs[i], token) && Shows(proc, rs[i].sym)
                                    && forall j | 0 <= j < i :: !Has(rs[j], token)
  }

  /** The last record is a procedure, and the struct overruns it and the `room` bytes behind it. */
  predicate Overrun(rs: seq<Record>, room: nat) {
    rs != [] && rs[|rs| - 1].Proc? && |BodyOf(rs[|rs| - 1])| + room < 40
  }

  predicate HasBeforeLast(rs: seq<Record>, token: nat) {
    exists i | 0 <= i < |rs| - 1 :: Has(rs[i], token)
  }

  lemma BeforeLastTail(rs: seq<Record>, token: nat)
    requires |rs| > 1
    ensures HasBeforeLast(rs, token) <==> Has(rs[0], token) || HasBeforeLast(rs[1..], token)
  {
    if i :| 0 <= i < |rs| - 1 && Has(rs[i], token) && i > 0 { assert Has(rs[1..][i - 1], token); }
    if i :| 0 <= i < |rs[1..]| - 1 && Has(rs[1..][i], token) { assert Has(rs[i + 1], token); }
  }

  /** The search fails exactly when it comes to a last record that the struct overruns. */
  ghost predicate SearchedRight(rs: seq<Record>, token: nat, room: nat, answer: Result) {
    && (answer.Failed? <==> Overrun(rs, room) && !HasBeforeLast(rs, token))
    && (!answer.Failed? ==> Answers(rs, token, answer))
  }

  lemma RightLater(rs: seq<Record>, token: nat, room: nat, answer: Result)
    requires |rs| > 1 && !Has(rs[0], token) && SearchedRight(rs[1..], token, room, answer)
    ensures SearchedRight(rs, token, room, answer)
  {
    BeforeLastTail(rs, token);
    assert rs[|rs| - 1] == rs[1..][|rs| - 2];
    if answer.Found? {
      var i :| 0 <= i < |rs| - 1 && Has(rs[1..][i], token) && Shows(answer.proc, rs[1..][i].sym)
               && forall j | 0 <= j < i :: !Has(rs[1..][j], token);
      forall j | 0 <= j < i + 1 ensures !Has(rs[j], token) {
        if j > 0 { assert rs[j] == rs[1..][j - 1]; }
      }
      assert Has(rs[i + 1], token);
    } else if answer.Missing? {
      forall i | 0 <= i < |rs| ensures !Has(rs[i], token) {
        if i > 0 { assert rs[i] == rs[1..][i - 1]; }
      }
    }
  }

  lemma FoundFirst(rs: seq<Record>, token: nat, room: nat, answer: Result)
    requires rs != [] && Has(rs[0], token) && answer.Found? && Shows(answer.proc, rs[0].sym)
    requires |rs| > 1 || !Overrun(rs, room)
    ensures SearchedRight(rs, token, room, answer)
  {
    assert Has(rs[0], token) && Shows(answer.proc, rs[0].sym);
    if |rs| > 1 { assert HasBeforeLast(rs, token); }
  }

  /** The only record: overrun or not. */
  lemma SearchLast(bits: seq<byte>, limit: int, token: nat, off: nat, r: Record)
    requires WellFormed(r) && At(bits, off, PutRecord(r)) && limit == off + |PutRecord(r)| <= |bits|
    ensures SearchedRight([r], token, |bits| - limit, Search(bits, limit, token, off))
  {
    if Overrun([r], |bits| - limit) {
      RecordHead(r, bits, off);
    } else {
      SearchStep(bits, limit, token, off, r);
      if Has(r, token) { FoundFirst([r], token, |bits| - limit, Search(bits, limit, token, off)); }
    }
  }

  /** A record that is followed by another one. */
  lemma SearchMore(bits: seq<byte>, limit: int, token: nat, off: nat, rs: seq<Record>)
    requires |rs| > 1 && WellFormed(rs[0]) && At(bits, off, PutRecord(rs[0]))
    requires off + |PutRecord(rs[0])| + 4 <= limit <= |bits|
    requires SearchedRight(rs[1..], token, |bits| - limit, Search(bits, limit, token, off + |PutRecord(rs[0])|))
    ensures SearchedRight(rs, token, |bits| - limit, Search(bits, limit, token, off))
  {
    SearchStep(bits, limit, token, off, rs[0]);
    if Has(rs[0], token) {
      FoundFirst(rs, token, |bits| - limit, Search(bits, limit, token, off));
    } else {
      RightLater(rs, token, |bits| - limit, Search(bits, limit, token, off));
    }
  }

  lemma RecordThenRest(bits: seq<byte>, off: nat, rs: seq<Record>)
    requires rs != [] && At(bits, off, PutRecords(rs))
    ensures var first, rest := PutRecord(rs[0]), PutRecords(rs[1..]);
      && At(bits, off, first) && At(bits, off + |first|, rest) && |PutRecords(rs)| == |first| + |rest|
      && (|rs| == 1 ==> rest == []) && (|rs| > 1 ==> |rest| >= 4)
  {
    AtConcat(bits, off, PutRecord(rs[0]), PutRecords(rs[1..]));
    if |rs| > 1 { assert PutRecords(rs[1..]) == PutRecord(rs[1]) + PutRecords(rs[1..][1..]); }
  }

  lemma {:induction false} SearchEncoded(bits: seq<byte>, limit: int, token: nat, off: nat, rs: seq<Record>)
    requires AllWellFormed(rs) && At(bits, off, PutRecords(rs)) && limit == off + |PutRecords(rs)| <= |bits|
    ensures SearchedRight(rs, token, |bits| - limit, Search(bits, limit, token, off))
    decreases |rs|
  {
    if rs != [] {
      var first, rest := rs[0], rs[1..];
      var next := off + |PutRecord(first)|;
      RecordThenRest(bits, off, rs);
      if |rs| == 1 {
        assert rs == [first];
        SearchLast(bits, limit, token, off, first);
      } else {
        SearchEncoded(bits, limit, token, next, rest);
        SearchMore(bits, limit, token, off, rs);
      }
    }
  }

  /** Over any encoded records, with anything or nothing behind them: the first managed procedure
      with the token is found, all its fields as stored but for the last, and nothing is found
      exactly when there is none; but the search fails exactly when it comes to a last record
      that the struct overruns. */
  lemma FindsFirst(bits: seq<byte>, token: nat, rs: seq<Record>)
    requires AllWellFormed(rs) && At(bits, 0, Put32(4) + PutRecords(rs))
    ensures var limit := 4 + |PutRecords(rs)|;
      limit <= |bits| && SearchedRight(rs, token, |bits| - limit, SearchModule(bits, limit, token))
  {
    AtConcat(bits, 0, Put32(4), PutRecords(rs));
    I32RoundTrip(4, bits, 0);
    SearchEncoded(bits, 4 + |PutRecords(rs)|, token, 4, rs);
  }

  /** Three bytes behind the records are enough. */
  lemma RoomEnough(bits: seq<byte>, token: nat, rs: seq<Record>)
    requires AllWellFormed(rs) && At(bits, 0, Put32(4) + PutRecords(rs))
    requires |bits| >= 4 + |PutRecords(rs)| + 3
    ensures Answers(rs, token, SearchModule(bits, 4 + |PutRecords(rs)|, token))
  {
    FindsFirst(bits, token, rs);
  }

  /** Bytes that do not start with the signature are refused. */
  lemma WrongSignature(bits: seq<byte>, symbolBytes: int, token: nat)
    requires |bits| < 4 || I32(bits, 0) != 4
    ensures SearchModule(bits, symbolBytes, token) == Failed
  {
  }
}
