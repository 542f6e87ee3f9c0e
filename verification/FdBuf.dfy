/**
 The buffered descriptor stream: an output buffer whose last cell is kept for the byte that
 overflows, and an input buffer that keeps a few bytes for putting back.
 */
module FdBuffers {
  import opened Options

  const BUFSIZE: nat := 1024
  const PUTBACK: nat := 12

  /** What the stream has done with the bytes put: the sent ones and the pending ones. */
  datatype Output = Output(sent: seq<char>, pending: seq<char>)

  /** The bytes before the read position and the bytes after it. */
  datatype Input = Input(back: seq<char>, unread: seq<char>)

  // ---------------------------------------------------------------- what the operations do

  /** How many of `size` bytes a write takes when the descriptor has room for `room`; it fails
      without room. */
  function Taken(size: nat, room: int): (n: nat)
    ensures n <= size && (n == 0 <==> size == 0 || room <= 0)
    ensures 0 < room <= size ==> n == room
    ensures room > size ==> n == size
  {
    if room <= 0 then 0 else if room <= size then room else size
  }

  function Synced(o: Output, room: int): Output {
    var n := Taken(|o.pending|, room);
    Output(o.sent + o.pending[..n], o.pending[n..])
  }

  function Accepted(o: Output, c: char): Output {
    o.(pending := o.pending + [c])
  }

  /** The buffer has its overflow cell free. */
  predicate Fits(o: Output) {
    |o.pending| < BUFSIZE
  }

  datatype Op = Put(c: char, room: int) | Flush(room: int)

  /** None: the byte is written behind the array. */
  function Step(o: Output, op: Op): Option<Output> {
    match op
    case Put(c, room) =>
      if |o.pending| < BUFSIZE - 1 then Some(Accepted(o, c))
      else if Fits(o) then Some(Synced(Accepted(o, c), room))
      else None
    case Flush(room) => Some(Synced(o, room))
  }

  /** None: some byte of the run is written behind the array. */
  function Run(o: Output, ops: seq<Op>): Option<Output> {
    if ops == [] then Some(o)
    else
      var before :- Run(o, ops[..|ops| - 1]);
      Step(before, ops[|ops| - 1])
  }

  function BytesPut(ops: seq<Op>): seq<char> {
    if ops == [] then []
    else BytesPut(ops[..|ops| - 1]) + if ops[|ops| - 1].Put? then [ops[|ops| - 1].c] else []
  }

  // ---------------------------------------------------------------- conservation

  /** Over every run that stays in the array, what was sent, followed by what is pending, is
      what was put, in order: failing writes and short writes lose and repeat nothing. */
  lemma {:induction false} RunConserves(o: Output, ops: seq<Op>)
    requires Run(o, ops).Some?
    ensures var r := Run(o, ops).value; r.sent + r.pending == o.sent + o.pending + BytesPut(ops)
    decreases |ops|
  {
    if ops == [] {
      assert o.sent + o.pending + [] == o.sent + o.pending;
    } else {
      var init, op := ops[..|ops| - 1], ops[|ops| - 1];
      RunConserves(o, init);
      StepConserves(Run(o, init).value, op);
    }
  }

  lemma StepConserves(o: Output, op: Op)
    requires Step(o, op).Some?
    ensures var r := Step(o, op).value; r.sent + r.pending == o.sent + o.pending + if op.Put? then [op.c] else []
  {
  }

  // ---------------------------------------------------------------- bounds

  /** The number of pending bytes after operations, from `n` on. */
  function Level(n: nat, ops: seq<Op>): nat {
    if ops == [] then n
    else
      var before, op := Level(n, ops[..|ops| - 1]), ops[|ops| - 1];
      var after := if op.Put? then before + 1 else before;
      if op.Flush? || before >= BUFSIZE - 1 then after - Taken(after, op.room) else after
  }

  /** Operation `i` puts a byte into the overflow cell, from where the descriptor takes nothing. */
  predicate StuckAt(n: nat, ops: seq<Op>, i: nat) {
    i < |ops| && ops[i].Put? && ops[i].room <= 0 && Level(n, ops[..i]) == BUFSIZE - 1
  }

  /** From `i` on nothing is put and nothing is taken. */
  predicate IdleFrom(ops: seq<Op>, i: nat) {
    forall k | i <= k < |ops| :: ops[k].Flush? && ops[k].room <= 0
  }

  /** The array is full: a byte was put into the overflow cell, and nothing was taken since. */
  ghost predicate LeftFull(n: nat, ops: seq<Op>) {
    exists i: nat :: StuckAt(n, ops, i) && IdleFrom(ops, i + 1)
  }

  /** A put behind a stuck put, before a write that takes something. */
  ghost predicate PutBehindStuck(n: nat, ops: seq<Op>, i: nat, j: nat) {
    i < j < |ops| && StuckAt(n, ops, i) && IdleFrom(ops[..j], i + 1) && ops[j].Put?
  }

  /** The last put of the operations is behind a stuck put exactly when the others left the array full. */
  lemma LastBehindStuck(n: nat, ops: seq<Op>)
    requires ops != []
    ensures (exists i: nat, j: nat :: j == |ops| - 1 && PutBehindStuck(n, ops, i, j))
       <==> ops[|ops| - 1].Put? && LeftFull(n, ops[..|ops| - 1])
  {
    var init := ops[..|ops| - 1];
    assert forall i: nat | i < |init| :: init[..i] == ops[..i];
    if i: nat, j: nat :| j == |ops| - 1 && PutBehindStuck(n, ops, i, j) {
      assert StuckAt(n, init, i) && IdleFrom(init, i + 1);
    }
    if ops[|ops| - 1].Put? && LeftFull(n, init) {
      var i: nat :| StuckAt(n, init, i) && IdleFrom(init, i + 1);
      assert PutBehindStuck(n, ops, i, |ops| - 1);
    }
  }

  lemma BehindStuckEarlier(n: nat, ops: seq<Op>, i: nat, j: nat)
    requires j < |ops| - 1
    ensures PutBehindStuck(n, ops, i, j) <==> PutBehindStuck(n, ops[..|ops| - 1], i, j)
  {
    var init := ops[..|ops| - 1];
    if i < j {
      assert init[..i] == ops[..i] && init[..j] == ops[..j];
    }
  }

  /** How the array comes to be full. */
  lemma LeftFullStep(n: nat, ops: seq<Op>)
    requires ops != []
    ensures var init, op := ops[..|ops| - 1], ops[|ops| - 1];
      LeftFull(n, ops) <==>
        op.room <= 0 && if op.Put? then Level(n, init) == BUFSIZE - 1 else LeftFull(n, init)
  {
    var init, m := ops[..|ops| - 1], |ops| - 1;
    assert forall i: nat | i < m :: init[..i] == ops[..i];
    if LeftFull(n, ops) {
      var i: nat :| StuckAt(n, ops, i) && IdleFrom(ops, i + 1);
      if i < m { assert StuckAt(n, init, i) && IdleFrom(init, i + 1); }
    }
    if ops[m].room <= 0 && ops[m].Put? && Level(n, init) == BUFSIZE - 1 {
      assert StuckAt(n, ops, m) && IdleFrom(ops, m + 1);
    }
    if ops[m].room <= 0 && ops[m].Flush? && LeftFull(n, init) {
      var i: nat :| StuckAt(n, init, i) && IdleFrom(init, i + 1);
      assert StuckAt(n, ops, i) && IdleFrom(ops, i + 1);
    }
  }

  /** The state of a run that is still in the array. */
  lemma {:induction false} RunLevel(o: Output, ops: seq<Op>)
    requires Fits(o) && Run(o, ops).Some?
    ensures |Run(o, ops).value.pending| == Level(|o.pending|, ops) <= BUFSIZE
    ensures |Run(o, ops).value.pending| == BUFSIZE <==> LeftFull(|o.pending|, ops)
    decreases |ops|
  {
    if ops != [] {
      RunLevel(o, ops[..|ops| - 1]);
      LeftFullStep(|o.pending|, ops);
    }
  }

  /** A run writes behind the array exactly when some stuck put is followed by another put
      before a write that takes something. */
  lemma {:induction false} RunInsideExact(o: Output, ops: seq<Op>)
    requires Fits(o)
    ensures Run(o, ops).None? <==> exists i: nat, j: nat :: PutBehindStuck(|o.pending|, ops, i, j)
    decreases |ops|
  {
    if ops != [] {
      var n, init, m := |o.pending|, ops[..|ops| - 1], |ops| - 1;
      RunInsideExact(o, init);
      forall i: nat, j: nat | j < m ensures PutBehindStuck(n, ops, i, j) <==> PutBehindStuck(n, init, i, j) {
        BehindStuckEarlier(n, ops, i, j);
      }
      LastBehindStuck(n, ops);
      if Run(o, init).Some? {
        RunLevel(o, init);
      } else {
        var i: nat, j: nat :| PutBehindStuck(n, init, i, j);
        assert PutBehindStuck(n, ops, i, j);
      }
    }
  }

  /** `n` bytes put while the descriptor takes nothing. */
  function Fill(n: nat): (ops: seq<Op>)
    ensures |ops| == n
  {
    seq(n, i => Put('x', 0))
  }

  lemma {:induction false} FillLevel(n: nat)
    requires n <= BUFSIZE
    ensures Run(Output([], []), Fill(n)).Some? && |Run(Output([], []), Fill(n)).value.pending| == n
  {
    if n > 0 {
      assert Fill(n)[..n - 1] == Fill(n - 1);
      FillLevel(n - 1);
    }
  }

  /** The shortest run of a new stream that writes behind the array has 1025 puts. */
  lemma ShortestFailure(ops: seq<Op>)
    ensures Run(Output([], []), Fill(1025)).None?
    ensures |ops| <= 1024 ==> Run(Output([], []), ops).Some?
  {
    assert Fill(BUFSIZE + 1)[..BUFSIZE] == Fill(BUFSIZE);
    FillLevel(BUFSIZE);
    if |ops| <= BUFSIZE { ShortRun(ops); }
  }

  lemma {:induction false} ShortRun(ops: seq<Op>)
    requires |ops| <= BUFSIZE
    ensures Run(Output([], []), ops).Some? && |Run(Output([], []), ops).value.pending| <= |ops|
    decreases |ops|
  {
    if ops != [] { ShortRun(ops[..|ops| - 1]); }
  }

  /** The overflow cell is free after every prefix of a run exactly when no put is stuck; so it
      is when every write makes progress. */
  lemma CellFreeExact(o: Output, ops: seq<Op>)
    requires Fits(o)
    ensures (forall k | 0 <= k <= |ops| :: Run(o, ops[..k]).Some? && Fits(Run(o, ops[..k]).value))
       <==> forall i | 0 <= i < |ops| :: !StuckAt(|o.pending|, ops, i)
  {
    var n := |o.pending|;
    if i :| 0 <= i < |ops| && StuckAt(n, ops, i) {
      var upTo := ops[..i + 1];
      assert upTo[..i] == ops[..i];
      if Run(o, upTo).Some? {
        RunLevel(o, upTo);
        assert StuckAt(n, upTo, i) && IdleFrom(upTo, i + 1);
      }
    } else {
      forall k | 0 <= k <= |ops| ensures Run(o, ops[..k]).Some? && Fits(Run(o, ops[..k]).value) {
        NoneStuck(o, ops, k);
      }
    }
  }

  lemma NoneStuck(o: Output, ops: seq<Op>, k: nat)
    requires Fits(o) && k <= |ops| && forall i | 0 <= i < |ops| :: !StuckAt(|o.pending|, ops, i)
    ensures Run(o, ops[..k]).Some? && Fits(Run(o, ops[..k]).value)
  {
    var n, upTo := |o.pending|, ops[..k];
    forall i: nat ensures !StuckAt(n, upTo, i) {
      if i < k { assert upTo[..i] == ops[..i] && !StuckAt(n, ops, i); }
    }
    RunInsideExact(o, upTo);
    RunLevel(o, upTo);
  }

  lemma ProgressFits(o: Output, ops: seq<Op>)
    requires Fits(o) && forall i | 0 <= i < |ops| :: ops[i].room > 0
    ensures forall k | 0 <= k <= |ops| :: Run(o, ops[..k]).Some? && Fits(Run(o, ops[..k]).value)
  {
    CellFreeExact(o, ops);
  }

  // ---------------------------------------------------------------- reading

  function Last(s: seq<char>, n: nat): (r: seq<char>)
    ensures |r| == if n <= |s| then n else |s|
  {
    if n <= |s| then s[|s| - n..] else s
  }

  /** Reading on when nothing is left: the next chunk, behind the last bytes read. */
  function Refilled(i: Input, chunk: seq<char>): Input {
    if i.unread != [] then i else Input(Last(i.back, PUTBACK), chunk)
  }

  /** Reading a byte, with the chunk the descriptor would deliver: the new state and the byte,
      none at the end of the stream. */
  function Bumped(i: Input, chunk: seq<char>): (Input, Option<char>) {
    var j := Refilled(i, chunk);
    if j.unread == [] then (j, None) else (Input(j.back + [j.unread[0]], j.unread[1..]), Some(j.unread[0]))
  }

  /** The bytes that reads give, the bytes the descriptor delivered, and the state after them. */
  datatype Reading = Reading(given: seq<char>, delivered: seq<char>, input: Input)

  function ReadStep(r: Reading, chunk: seq<char>): Reading {
    var (i, c) := Bumped(r.input, chunk);
    Reading(if c.Some? then r.given + [c.value] else r.given,
            if r.input.unread == [] then r.delivered + chunk else r.delivered, i)
  }

  function ReadAll(r: Reading, chunks: seq<seq<char>>): Reading
    decreases |chunks|
  {
    if chunks == [] then r else ReadAll(ReadStep(r, chunks[0]), chunks[1..])
  }

  /** What was given, followed by what is unread, is what was delivered, and the bytes given
      last are there to be put back. */
  ghost predicate ReadSound(r: Reading) {
    && r.given + r.input.unread == r.delivered
    && |r.input.back| <= |r.given| && r.input.back == Last(r.given, |r.input.back|)
    && (|r.input.back| >= 12 || r.input.back == r.given)
  }

  /** Reading on keeps what is unread; when nothing is, it keeps the last twelve bytes, or all there
      are if fewer, and takes the chunk. */
  lemma RefillExact(i: Input, chunk: seq<char>)
    ensures var j := Refilled(i, chunk);
      if i.unread != [] then j == i
      else && j.unread == chunk && |j.back| == (if |i.back| <= 12 then |i.back| else 12)
           && j.back == i.back[|i.back| - |j.back|..]
  {
  }

  /** A read gives the next byte delivered; none exactly when all were given. */
  lemma ReadStepExact(r: Reading, chunk: seq<char>)
    requires ReadSound(r)
    ensures var s := ReadStep(r, chunk);
      s.given == if |s.delivered| > |r.given| then r.given + [s.delivered[|r.given|]] else r.given
  {
    RefilledSound(r, chunk);
    var s, j := ReadStep(r, chunk), Refilled(r.input, chunk);
    assert r.given + j.unread == s.delivered;
    if j.unread != [] { assert (r.given + j.unread)[|r.given|] == j.unread[0]; }
  }

  lemma RefilledSound(r: Reading, chunk: seq<char>)
    requires ReadSound(r)
    ensures ReadSound(Reading(r.given, if r.input.unread == [] then r.delivered + chunk else r.delivered,
                              Refilled(r.input, chunk)))
  {
    if r.input.unread == [] {
      assert r.given + [] == r.given;
    }
  }

  lemma TakenSound(r: Reading)
    requires ReadSound(r) && r.input.unread != []
    ensures ReadSound(Reading(r.given + [r.input.unread[0]], r.delivered,
                              Input(r.input.back + [r.input.unread[0]], r.input.unread[1..])))
  {
    var c := r.input.unread[0];
    assert r.input.unread == [c] + r.input.unread[1..];
    assert r.given + r.input.unread == r.given + [c] + r.input.unread[1..];
  }

  lemma ReadStepSound(r: Reading, chunk: seq<char>)
    requires ReadSound(r)
    ensures ReadSound(ReadStep(r, chunk))
  {
    RefilledSound(r, chunk);
    var j := Refilled(r.input, chunk);
    if j.unread != [] {
      TakenSound(Reading(r.given, if r.input.unread == [] then r.delivered + chunk else r.delivered, j));
    }
  }

  lemma {:induction false} ReadAllSound(r: Reading, chunks: seq<seq<char>>)
    requires ReadSound(r)
    ensures ReadSound(ReadAll(r, chunks))
    decreases |chunks|
  {
    if chunks != [] {
      ReadStepSound(r, chunks[0]);
      ReadAllSound(ReadStep(r, chunks[0]), chunks[1..]);
    }
  }

  // ---------------------------------------------------------------- the buffer

  /** Copies cells to the front of their array. */
  method CopyToFront(a: array<char>, from: nat, n: nat)
    requires from + n <= a.Length
    modifies a
    ensures a[..n] == old(a[from..from + n])
  {
    for i := 0 to n
      invariant forall k | 0 <= k < i :: a[k] == old(a[from + k])
      invariant forall k | i <= k < a.Length :: a[k] == old(a[k])
    {
      a[i] := a[from + i];
    }
  }

  class FdBuf {
    const outbuf: array<char>
    const inbuf: array<char>
    var pptr: nat
    var gptr: nat
    var egptr: nat
    ghost var sent: seq<char>

    ghost predicate Valid()
      reads this
    {
      && outbuf.Length == BUFSIZE && inbuf.Length == BUFSIZE + PUTBACK && outbuf != inbuf
      && pptr <= BUFSIZE && gptr <= egptr <= inbuf.Length
    }

    ghost function Out(): Output
      reads this, outbuf
      requires Valid()
    {
      Output(sent, outbuf[..pptr])
    }

    ghost function In(): Input
      reads this, inbuf
      requires Valid()
    {
      Input(inbuf[..gptr], inbuf[gptr..egptr])
    }

    constructor ()
      ensures Valid() && fresh(outbuf) && fresh(inbuf)
      ensures Out() == Output([], []) && In() == Input([], [])
    {
      outbuf := new char[BUFSIZE];
      inbuf := new char[BUFSIZE + PUTBACK];
      pptr, gptr, egptr, sent := 0, 0, 0, [];
    }

    /** Writes what is pending and moves the rest to the front; fails when the buffer is full up
        to the overflow cell. */
    method FdSync(room: int) returns (ok: bool)
      requires Valid()
      modifies this`pptr, this`sent, outbuf
      ensures Valid() && Out() == Synced(old(Out()), room)
      ensures ok <==> |Out().pending| != BUFSIZE - 1
    {
      ghost var pending := outbuf[..pptr];
      if pptr != 0 {
        var done := Taken(pptr, room);
        sent := sent + outbuf[..done];
        assert outbuf[..done] == pending[..done];
        if 0 < done {
          assert outbuf[done..done + (pptr - done)] == pending[done..];
          CopyToFront(outbuf, done, pptr - done);
          pptr := pptr - done;
        } else {
          assert pending[0..] == pending;
        }
      } else {
        assert pending == [] && sent + [] == sent;
      }
      ok := pptr != BUFSIZE - 1;
    }

    /** Puts a byte, if any, into the overflow cell and writes.  Where the byte would be written
        behind the array, the model stops. */
    method Overflow(c: Option<char>, room: int) returns (inside: bool, ok: bool)
      requires Valid()
      modifies this`pptr, this`sent, outbuf
      ensures Valid() && (inside <==> c.None? || Fits(old(Out())))
      ensures !inside ==> Out() == old(Out())
      ensures inside ==> Out() == Synced(if c.Some? then Accepted(old(Out()), c.value) else old(Out()), room)
      ensures inside ==> (ok <==> |Out().pending| != BUFSIZE - 1)
    {
      if c.Some? {
        if pptr >= outbuf.Length {
          return false, false;
        }
        outbuf[pptr] := c.value;
        pptr := pptr + 1;
        assert outbuf[..pptr] == old(outbuf[..pptr]) + [c.value];
      }
      ok := FdSync(room);
      inside := true;
    }

    /** Putting a byte, as the standard library's stream buffer does. */
    method PutChar(c: char, room: int) returns (inside: bool, ok: bool)
      requires Valid()
      modifies this`pptr, this`sent, outbuf
      ensures Valid() && inside == Step(old(Out()), Put(c, room)).Some?
      ensures Out() == if inside then Step(old(Out()), Put(c, room)).value else old(Out())
      ensures inside ==> (ok <==> old(|Out().pending|) < BUFSIZE - 1 || |Out().pending| != BUFSIZE - 1)
    {
      if pptr < BUFSIZE - 1 {
        outbuf[pptr] := c;
        pptr := pptr + 1;
        assert outbuf[..pptr] == old(outbuf[..pptr]) + [c];
        inside, ok := true, true;
      } else {
        inside, ok := Overflow(Some(c), room);
      }
    }

    /** Puts what the descriptor delivers into the input buffer. */
    method FdRead(at: nat, chunk: seq<char>)
      requires at + |chunk| <= inbuf.Length
      modifies inbuf
      ensures inbuf[..at] == old(inbuf[..at]) && inbuf[at..at + |chunk|] == chunk
    {
      for i := 0 to |chunk|
        invariant forall k | 0 <= k < at :: inbuf[k] == old(inbuf[k])
        invariant forall k | 0 <= k < i :: inbuf[at + k] == chunk[k]
      {
        inbuf[at + i] := chunk[i];
      }
    }

    /** The next byte without taking it, after reading a chunk if none is left.  The chunk is
        what the descriptor delivers, empty at its end and on failure. */
    method Underflow(chunk: seq<char>) returns (r: Option<char>)
      requires Valid() && |chunk| <= BUFSIZE
      modifies this`gptr, this`egptr, inbuf
      ensures Valid() && In() == Refilled(old(In()), chunk)
      ensures r == if In().unread == [] then None else Some(In().unread[0])
    {
      if gptr == egptr {
        var pback := if gptr <= PUTBACK then gptr else PUTBACK;
        ghost var kept := Last(inbuf[..gptr], PUTBACK);
        CopyToFront(inbuf, egptr - pback, pback);
        assert inbuf[..pback] == kept;
        FdRead(pback, chunk);
        gptr, egptr := pback, pback + |chunk|;
      }
      assert gptr < egptr ==> inbuf[gptr..egptr][0] == inbuf[gptr];
      r := if gptr == egptr then None else Some(inbuf[gptr]);
    }

    /** Taking a byte, as the standard library's stream buffer does. */
    method BumpChar(chunk: seq<char>) returns (r: Option<char>)
      requires Valid() && |chunk| <= BUFSIZE
      modifies this`gptr, this`egptr, inbuf
      ensures Valid() && (In(), r) == Bumped(old(In()), chunk)
    {
      r := Underflow(chunk);
      if r.Some? {
        ghost var before := In();
        gptr := gptr + 1;
        assert inbuf[..gptr] == before.back + [r.value];
        assert inbuf[gptr..egptr] == before.unread[1..];
      }
    }
  }
}
