/**
 The breakpoint engine: line, function and exception breakpoints, which share one counter
 of ids.  SetBreakpoints replaces the breakpoints of a file by the requested ones; over
 every run ids are distinct and never given out twice.
 */
module Engine {
  import opened Options
  import opened Tables
  import Exceptions
  import SequencePoints
  import EntryPoints

  /** Where a breakpoint is bound. */
  datatype Location = Location(modAddress: nat, methodToken: int, ilOffset: int, fullname: string)

  /** A line breakpoint but for its id and condition; it is resolved when modAddress is not 0. */
  datatype LineDetail = LineDetail(
    modAddress: nat, methodToken: int, ilOffset: int, fullname: string, linenum: int, enabled: bool, times: nat)

  datatype FuncLocation = FuncLocation(modAddress: nat, methodToken: int)
  datatype FuncDetail = FuncDetail(
    mod: string, name: string, params: string, times: nat, enabled: bool, bound: seq<FuncLocation>)

  datatype Request = Request(line: int, condition: string)
  datatype FuncRequest = FuncRequest(mod: string, func: string, params: string, condition: string)

  /** What the client is told about a line breakpoint. */
  datatype Breakpoint = Breakpoint(
    id: nat, verified: bool, condition: string, source: string, line: int, hitCount: nat)

  /** What symbols say about a source line, and about a function of a module; a debugger
      without a process resolves nothing. */
  type Resolver = (string, int) -> Option<Location>
  type FuncResolver = (string, string) -> seq<FuncLocation>

  type LineTable = map<int, Record<LineDetail>>

  datatype State = State(
    lines: map<string, LineTable>, funcs: map<string, Record<FuncDetail>>,
    exceptions: Exceptions.Store, next: nat)

  const START := State(map[], map[], Exceptions.EMPTY, 1)

  function Bound(d: LineDetail, found: Option<Location>): LineDetail {
    match found
    case None => d
    case Some(l) =>
      d.(modAddress := l.modAddress, methodToken := l.methodToken, ilOffset := l.ilOffset, fullname := l.fullname)
  }

  function NewLine(file: string, line: int, resolve: Resolver): LineDetail {
    Bound(LineDetail(0, 0, 0, file, line, true, 0), resolve(file, line))
  }

  function Asks(file: string, reqs: seq<Request>, resolve: Resolver): (asks: seq<Ask<int, LineDetail>>)
    ensures |asks| == |reqs|
  {
    seq(|reqs|, i requires 0 <= i < |reqs| =>
      Ask(reqs[i].line, reqs[i].condition, NewLine(file, reqs[i].line, resolve)))
  }

  function FullName(r: FuncRequest): string {
    (if r.mod != "" then r.mod + "!" else "") + (r.func + r.params)
  }

  function FuncAsks(reqs: seq<FuncRequest>, resolve: FuncResolver): (asks: seq<Ask<string, FuncDetail>>)
    ensures |asks| == |reqs|
  {
    seq(|reqs|, i requires 0 <= i < |reqs| =>
      Ask(FullName(reqs[i]), reqs[i].condition,
          FuncDetail(reqs[i].mod, reqs[i].func, reqs[i].params, 0, true, resolve(reqs[i].mod, reqs[i].func))))
  }

  function Table(st: State, file: string): LineTable {
    if file in st.lines then st.lines[file] else map[]
  }

  function ToBreakpoint(r: Record<LineDetail>): Breakpoint {
    Breakpoint(r.id, r.detail.modAddress != 0, r.condition, r.detail.fullname, r.detail.linenum, r.detail.times)
  }

  function ToBreakpoints(rs: seq<Record<LineDetail>>): (r: seq<Breakpoint>)
    ensures |r| == |rs|
  {
    seq(|rs|, i requires 0 <= i < |rs| => ToBreakpoint(rs[i]))
  }

  function Rebound(r: Record<LineDetail>, resolve: Resolver): Record<LineDetail> {
    if r.detail.modAddress != 0 then r
    else r.(detail := Bound(r.detail, resolve(r.detail.fullname, r.detail.linenum)))
  }

  function ReboundTable(table: LineTable, resolve: Resolver): LineTable {
    map l | l in table :: Rebound(table[l], resolve)
  }

  function ReboundTables(tables: map<string, LineTable>, resolve: Resolver): map<string, LineTable> {
    map f | f in tables :: ReboundTable(tables[f], resolve)
  }

  function ReboundFunc(r: Record<FuncDetail>, resolve: FuncResolver): Record<FuncDetail> {
    if r.detail.bound != [] then r else r.(detail := r.detail.(bound := resolve(r.detail.mod, r.detail.name)))
  }

  /** What can happen to the engine. */
  datatype Op =
    | SetLines(file: string, reqs: seq<Request>, resolve: Resolver)
    | SetFuncs(funcs: seq<FuncRequest>, resolveFunc: FuncResolver)
    | InsertException(mode: Exceptions.Mode, name: string)
    | DeleteException(id: nat)
    | ModuleLoaded(resolve: Resolver, resolveFunc: FuncResolver)
    | Hit(file: string, line: int)
    | HitFunc(func: string)
    | DeleteAll

  /** SetBreakpoints, with the records it exports. */
  function Replaced(st: State, file: string, reqs: seq<Request>, resolve: Resolver): Synced<int, LineDetail> {
    Sync(Table(st, file), st.next, Asks(file, reqs, resolve))
  }

  function Counted(r: Record<LineDetail>): Record<LineDetail> {
    r.(detail := r.detail.(times := r.detail.times + 1))
  }

  function CountedFunc(r: Record<FuncDetail>): Record<FuncDetail> {
    r.(detail := r.detail.(times := r.detail.times + 1))
  }

  function Apply(st: State, op: Op): State {
    match op
    case SetLines(file, reqs, resolve) =>
      if reqs == [] then st.(lines := st.lines - {file})
      else
        var s := Replaced(st, file, reqs, resolve);
        st.(lines := st.lines[file := s.table], next := s.next)
    case SetFuncs(reqs, resolve) =>
      var s := Sync(st.funcs, st.next, FuncAsks(reqs, resolve));
      st.(funcs := s.table, next := s.next)
    case InsertException(mode, name) =>
      st.(exceptions := Exceptions.Inserted(st.exceptions, st.next, mode, name),
          next := if Exceptions.InsertOk(st.exceptions, name) then st.next + 1 else st.next)
    case DeleteException(id) => st.(exceptions := Exceptions.Removed(st.exceptions, id))
    case ModuleLoaded(resolve, resolveFunc) =>
      st.(lines := ReboundTables(st.lines, resolve),
          funcs := map f | f in st.funcs :: ReboundFunc(st.funcs[f], resolveFunc))
    case Hit(file, line) =>
      if line in Table(st, file)
      then st.(lines := st.lines[file := st.lines[file][line := Counted(st.lines[file][line])]])
      else st
    case HitFunc(func) =>
      if func in st.funcs
      then st.(funcs := st.funcs[func := CountedFunc(st.funcs[func])])
      else st
    case DeleteAll => st.(lines := map[])
  }

  // ---------------------------------------------------------------- hits

  /** The file under which the breakpoints of a document are looked up. */
  function HitKey(st: State, document: string): Option<string> {
    if document in st.lines then Some(document)
    else if SequencePoints.FileName(document) in st.lines then Some(SequencePoints.FileName(document))
    else None
  }

  /** The breakpoint hit when the program stops at the point `p`; `holds` says which
      conditions evaluate to true. */
  function FindHit(st: State, p: SequencePoints.Point, token: int, il: int, holds: string -> bool)
    : Option<(string, int)>
  {
    match HitKey(st, p.document)
    case None => None
    case Some(file) =>
      if p.startLine !in st.lines[file] then None
      else
        var r := st.lines[file][p.startLine];
        if r.detail.ilOffset == il && r.detail.methodToken == token && r.detail.enabled
          && (r.condition == "" || holds(r.condition))
        then Some((file, p.startLine))
        else None
  }

  // ---------------------------------------------------------------- owners of ids

  datatype Owner = LineAt(file: string, line: int) | Function(name: string) | Filter(name: string)

  ghost predicate Owns(st: State, o: Owner, id: nat) {
    match o
    case LineAt(file, line) => file in st.lines && line in st.lines[file] && st.lines[file][line].id == id
    case Function(name) => name in st.funcs && st.funcs[name].id == id
    case Filter(name) => id in st.exceptions.table && st.exceptions.table[id] == name
  }

  /** Live ids are positive, below the counter and owned once; the exception store is
      consistent; every line record knows its line. */
  ghost predicate Valid(st: State) {
    && st.next >= 1
    && (forall o, id: nat | Owns(st, o, id) :: 1 <= id < st.next)
    && (forall o, p, id: nat | Owns(st, o, id) && Owns(st, p, id) :: o == p)
    && Exceptions.Consistent(st.exceptions)
    && LinesNamed(st)
  }

  /** Ids given out before still belong to their owner, or to nobody. */
  ghost predicate IdsPersist(st: State, r: State) {
    && st.next <= r.next
    && forall o, id: nat | Owns(r, o, id) && id < st.next :: Owns(st, o, id)
  }

  ghost predicate Kept(st: State, r: State) {
    Valid(r) && IdsPersist(st, r)
  }

  lemma FileDistinct(st: State, file: string)
    requires Valid(st)
    ensures DistinctIds(Table(st, file)) && IdsBelow(Table(st, file), st.next)
  {
    var t := Table(st, file);
    forall k | k in t ensures t[k].id < st.next { assert Owns(st, LineAt(file, k), t[k].id); }
    forall k, m | k in t && m in t && t[k].id == t[m].id ensures k == m {
      assert Owns(st, LineAt(file, k), t[k].id) && Owns(st, LineAt(file, m), t[k].id);
    }
  }

  /** New ids that are owned once keep the invariant of the owners. */
  ghost predicate OwnersExtended(st: State, r: State) {
    && st.next <= r.next
    && (forall o, id: nat | Owns(r, o, id) :: Owns(st, o, id) || st.next <= id < r.next)
    && (forall o, p, id: nat | Owns(r, o, id) && Owns(r, p, id) && id >= st.next :: o == p)
  }

  ghost predicate LinesNamed(st: State) {
    forall f, l | f in st.lines && l in st.lines[f] :: st.lines[f][l].detail.linenum == l
  }

  lemma SetLinesOwner(st: State, file: string, reqs: seq<Request>, resolve: Resolver, o: Owner, id: nat)
    requires Valid(st) && reqs != []
    requires Owns(Apply(st, SetLines(file, reqs, resolve)), o, id)
    ensures Owns(st, o, id) || (st.next <= id < Replaced(st, file, reqs, resolve).next && o.LineAt? && o.file == file)
  {
    if o.LineAt? && o.file == file {
      SyncAt(Table(st, file), st.next, Asks(file, reqs, resolve), o.line);
    }
  }

  lemma SetLinesOwners(st: State, file: string, reqs: seq<Request>, resolve: Resolver)
    requires Valid(st) && reqs != []
    ensures OwnersExtended(st, Apply(st, SetLines(file, reqs, resolve)))
  {
    var r, asks := Apply(st, SetLines(file, reqs, resolve)), Asks(file, reqs, resolve);
    FileDistinct(st, file);
    SyncDistinct(Table(st, file), st.next, asks);
    SyncCounts(Table(st, file), st.next, asks);
    forall o, id: nat | Owns(r, o, id)
      ensures Owns(st, o, id) || (st.next <= id < r.next && o.LineAt? && o.file == file)
    {
      SetLinesOwner(st, file, reqs, resolve, o, id);
    }
    forall o, p, id: nat | Owns(r, o, id) && Owns(r, p, id) && id >= st.next ensures o == p {
      assert !Owns(st, o, id) && !Owns(st, p, id);
    }
  }

  lemma SetLinesNamed(st: State, file: string, reqs: seq<Request>, resolve: Resolver)
    requires LinesNamed(st) && reqs != []
    ensures LinesNamed(Apply(st, SetLines(file, reqs, resolve)))
  {
    var r := Apply(st, SetLines(file, reqs, resolve));
    forall f, l | f in r.lines && l in r.lines[f] ensures r.lines[f][l].detail.linenum == l {
      if f == file { SyncAt(Table(st, file), st.next, Asks(file, reqs, resolve), l); }
    }
  }

  lemma SetLinesKeeps(st: State, file: string, reqs: seq<Request>, resolve: Resolver)
    requires Valid(st)
    ensures Kept(st, Apply(st, SetLines(file, reqs, resolve)))
  {
    var r := Apply(st, SetLines(file, reqs, resolve));
    if reqs == [] {
      assert forall o, id: nat | Owns(r, o, id) :: Owns(st, o, id);
    } else {
      SetLinesOwners(st, file, reqs, resolve);
      SetLinesNamed(st, file, reqs, resolve);
    }
  }

  lemma FuncsDistinct(st: State)
    requires Valid(st)
    ensures DistinctIds(st.funcs) && IdsBelow(st.funcs, st.next)
  {
    forall k | k in st.funcs ensures st.funcs[k].id < st.next { assert Owns(st, Function(k), st.funcs[k].id); }
    forall k, m | k in st.funcs && m in st.funcs && st.funcs[k].id == st.funcs[m].id ensures k == m {
      assert Owns(st, Function(k), st.funcs[k].id) && Owns(st, Function(m), st.funcs[k].id);
    }
  }

  lemma SetFuncsKeeps(st: State, reqs: seq<FuncRequest>, resolve: FuncResolver)
    requires Valid(st)
    ensures Kept(st, Apply(st, SetFuncs(reqs, resolve)))
  {
    var r, asks := Apply(st, SetFuncs(reqs, resolve)), FuncAsks(reqs, resolve);
    FuncsDistinct(st);
    SyncDistinct(st.funcs, st.next, asks);
    SyncCounts(st.funcs, st.next, asks);
    forall o, id: nat | Owns(r, o, id) ensures Owns(st, o, id) || (st.next <= id < r.next && o.Function?) {
      if o.Function? { SyncAt(st.funcs, st.next, asks, o.name); }
    }
    assert LinesNamed(r);
  }

  lemma InsertExceptionKeeps(st: State, mode: Exceptions.Mode, name: string)
    requires Valid(st)
    ensures Kept(st, Apply(st, InsertException(mode, name)))
    ensures Exceptions.InsertOk(st.exceptions, name)
  {
    var r := Apply(st, InsertException(mode, name));
    NextNotFiltered(st);
    Exceptions.InsertKeeps(st.exceptions, st.next, mode, name);
    forall o, id: nat | Owns(r, o, id) ensures Owns(st, o, id) || (id == st.next && o == Filter(name)) {
      if o.Filter? { assert id == st.next || id in st.exceptions.table; }
    }
    assert r.lines == st.lines;
    assert LinesNamed(r);
  }

  lemma NextNotFiltered(st: State)
    requires Valid(st)
    ensures st.next !in st.exceptions.table && st.next != 0
  {
    if st.next in st.exceptions.table {
      assert Owns(st, Filter(st.exceptions.table[st.next]), st.next);
    }
  }

  /** Ops that change no id at all. */
  lemma QuietKeeps(st: State, op: Op)
    requires Valid(st) && (op.DeleteException? || op.ModuleLoaded? || op.Hit? || op.HitFunc? || op.DeleteAll?)
    ensures Kept(st, Apply(st, op))
  {
    var r := Apply(st, op);
    if op.DeleteException? { Exceptions.DeleteKeeps(st.exceptions, op.id); }
    assert forall o, id: nat | Owns(r, o, id) :: Owns(st, o, id);
  }

  lemma ApplyKeeps(st: State, op: Op)
    requires Valid(st)
    ensures Kept(st, Apply(st, op))
  {
    match op
    case SetLines(file, reqs, resolve) => SetLinesKeeps(st, file, reqs, resolve);
    case SetFuncs(reqs, resolve) => SetFuncsKeeps(st, reqs, resolve);
    case InsertException(mode, name) => InsertExceptionKeeps(st, mode, name);
    case _ => QuietKeeps(st, op);
  }

  function Run(st: State, ops: seq<Op>): State {
    if ops == [] then st else Apply(Run(st, ops[..|ops| - 1]), ops[|ops| - 1])
  }

  /** Over every run: ids are in range and owned once, and an id belongs to the owner that it
      was given to for as long as it lives; it is never given to another. */
  lemma {:induction false} RunKeeps(st: State, ops: seq<Op>)
    requires Valid(st)
    ensures Kept(st, Run(st, ops))
  {
    if ops != [] {
      var init := ops[..|ops| - 1];
      RunKeeps(st, init);
      ApplyKeeps(Run(st, init), ops[|ops| - 1]);
    }
  }

  lemma StartValid()
    ensures Valid(START) && START.next == 1
  {
  }

  /** Over every run from the start: the asterisk id is not 0 exactly when a live filter is for
      all names, and is then the only one; every mode in force belongs to a live filter; and the
      store accepts the next filter, whatever its name. */
  lemma ExceptionsOverRuns(ops: seq<Op>, name: string)
    ensures var s := Run(START, ops).exceptions;
      && (s.asterisk != 0 <==> exists id :: id in s.table && s.table[id] == "*")
      && (forall id | id in s.table && s.table[id] == "*" :: id == s.asterisk)
      && (Exceptions.Modes(s, name) != multiset{} ==> exists id :: id in s.table && s.table[id] == name)
      && Exceptions.InsertOk(s, name)
  {
    StartValid();
    RunKeeps(START, ops);
  }

  /** Operation `k` of a run from the start deletes an id of the name. */
  predicate Drops(ops: seq<Op>, k: nat, name: string)
    requires k < |ops|
  {
    var live := Run(START, ops[..k]).exceptions.table;
    ops[k].DeleteException? && ops[k].id in live && live[ops[k].id] == name
  }

  predicate Adds(op: Op, name: string) {
    op.InsertException? && op.name == name
  }

  /** The modes inserted for the name, in order. */
  function Added(ops: seq<Op>, name: string): seq<Exceptions.Mode> {
    if ops == [] then []
    else
      var init, op := Added(ops[..|ops| - 1], name), ops[|ops| - 1];
      if Adds(op, name) then init + [op.mode] else init
  }

  /** Of the modes for all names, only the last one counts. */
  function Counting(added: seq<Exceptions.Mode>, name: string): multiset<Exceptions.Mode> {
    if name == "*" && added != [] then multiset{added[|added| - 1]} else multiset(added)
  }

  /** Over every run from the start: the modes in force for a name are those inserted for it since
      one of its ids was last deleted, whichever id that was; for the global filter, only the last
      one of these. */
  lemma {:induction false} ModesInForce(ops: seq<Op>, name: string, k: nat)
    requires k <= |ops| && (k == 0 || Drops(ops, k - 1, name))
    requires forall j | k <= j < |ops| :: !Drops(ops, j, name)
    ensures Exceptions.Modes(Run(START, ops).exceptions, name) == Counting(Added(ops[k..], name), name)
    decreases |ops|
  {
    var n := |ops| - 1;
    if ops != [] { ModesLast(ops, name); }
    if k < |ops| {
      forall j | 0 <= j < n ensures Drops(ops[..n], j, name) == Drops(ops, j, name) { DropsBefore(ops, n, j, name); }
      ModesInForce(ops[..n], name, k);
      AddedNext(ops, name, k);
    }
  }

  /** What the last operation of a run does to the modes of a name. */
  lemma ModesLast(ops: seq<Op>, name: string)
    requires ops != []
    ensures var n := |ops| - 1;
      var modes := Exceptions.Modes(Run(START, ops[..n]).exceptions, name);
      Exceptions.Modes(Run(START, ops).exceptions, name)
      == if Drops(ops, n, name) then multiset{}
         else if !Adds(ops[n], name) then modes
         else if name == "*" then multiset{ops[n].mode}
         else modes + multiset{ops[n].mode}
  {
    var n := |ops| - 1;
    assert Valid(Run(START, ops[..n])) by {
      StartValid();
      RunKeeps(START, ops[..n]);
    }
    ModesStep(Run(START, ops[..n]), ops[n], name);
  }

  lemma ModesStep(st: State, op: Op, name: string)
    requires Valid(st)
    ensures var live, modes := st.exceptions.table, Exceptions.Modes(st.exceptions, name);
      Exceptions.Modes(Apply(st, op).exceptions, name)
      == if op.DeleteException? && op.id in live && live[op.id] == name then multiset{}
         else if !Adds(op, name) then modes
         else if name == "*" then multiset{op.mode}
         else modes + multiset{op.mode}
  {
    match op
    case InsertException(mode, added) =>
      NextNotFiltered(st);
      Exceptions.InsertModes(st.exceptions, st.next, mode, added, name);
    case DeleteException(id) =>
      if id in st.exceptions.table { Exceptions.DeleteModes(st.exceptions, id, name); }
    case _ =>
  }

  lemma DropsBefore(ops: seq<Op>, n: nat, j: nat, name: string)
    requires j < n <= |ops|
    ensures Drops(ops[..n], j, name) == Drops(ops, j, name)
  {
    assert ops[..n][..j] == ops[..j];
  }

  lemma AddedNext(ops: seq<Op>, name: string, k: nat)
    requires k < |ops|
    ensures var n := |ops| - 1;
      Added(ops[k..], name)
      == Added(ops[..n][k..], name) + if Adds(ops[n], name) then [ops[n].mode] else []
  {
    var n := |ops| - 1;
    assert ops[k..][..|ops[k..]| - 1] == ops[..n][k..];
    assert ops[k..][|ops[k..]| - 1] == ops[n];
  }

  // ---------------------------------------------------------------- map replacement

  predicate Requests(reqs: seq<Request>, line: int) {
    exists i :: 0 <= i < |reqs| && reqs[i].line == line
  }

  /** The condition of the last request for the line. */
  function LastCondition(reqs: seq<Request>, line: int): string
    requires Requests(reqs, line)
  {
    var n := |reqs| - 1;
    if reqs[n].line == line then reqs[n].condition else LastCondition(reqs[..n], line)
  }

  lemma {:induction false} LastConditionIs(reqs: seq<Request>, line: int, i: nat)
    requires i < |reqs| && reqs[i].line == line
    requires forall j | i < j < |reqs| :: reqs[j].line != line
    ensures LastCondition(reqs, line) == reqs[i].condition
  {
    if i < |reqs| - 1 { LastConditionIs(reqs[..|reqs| - 1], line, i); }
  }

  lemma AskedLines(file: string, reqs: seq<Request>, resolve: Resolver, line: int)
    ensures line in Tables.Keys(Asks(file, reqs, resolve)) <==> Requests(reqs, line)
  {
    var asks := Asks(file, reqs, resolve);
    if Requests(reqs, line) {
      var i :| 0 <= i < |reqs| && reqs[i].line == line;
      assert asks[i].key == line;
    }
    if line in Tables.Keys(asks) { assert reqs[FirstAsk(asks, line)].line == line; }
  }

  lemma AskedCondition(file: string, reqs: seq<Request>, resolve: Resolver, line: int)
    requires Requests(reqs, line) && line in Tables.Keys(Asks(file, reqs, resolve))
    ensures var asks := Asks(file, reqs, resolve); asks[LastAsk(asks, line)].condition == LastCondition(reqs, line)
  {
    var asks := Asks(file, reqs, resolve);
    var i := LastAsk(asks, line);
    forall j | i < j < |reqs| ensures reqs[j].line != line { assert asks[j].key != line; }
    LastConditionIs(reqs, line, i);
  }

  /** The replaced table of a file: exactly the requested lines; kept ones keep id, binding
      and hit count, new ones get fresh ids, are bound by the symbols and not hit; the last
      requested condition holds. */
  ghost predicate TableReplaced(st: State, file: string, reqs: seq<Request>, resolve: Resolver, t: LineTable,
                                next: nat) {
    && (forall l :: l in t <==> Requests(reqs, l))
    && (forall l | l in t :: LineReplaced(st, file, reqs, resolve, l, t[l], next))
    && DistinctIds(t)
  }

  ghost predicate LineReplaced(st: State, file: string, reqs: seq<Request>, resolve: Resolver, l: int,
                               r: Record<LineDetail>, next: nat)
    requires Requests(reqs, l)
  {
    var before := Table(st, file);
    && r.condition == LastCondition(reqs, l)
    && (l in before ==> r.id == before[l].id && r.detail == before[l].detail)
    && (l !in before ==> st.next <= r.id < next && r.detail == NewLine(file, l, resolve))
  }

  /** Answer i is for request i: its line, its condition, and the id stored for the line; where the
      breakpoint is bound, if it is, and how often it was hit. */
  ghost predicate Answered(reqs: seq<Request>, t: LineTable, out: seq<Breakpoint>) {
    && |out| == |reqs|
    && forall i | 0 <= i < |reqs| ::
         && reqs[i].line in t
         && out[i].line == reqs[i].line && out[i].condition == reqs[i].condition && out[i].id == t[reqs[i].line].id
         && (out[i].verified <==> t[reqs[i].line].detail.modAddress != 0)
         && out[i].source == t[reqs[i].line].detail.fullname && out[i].hitCount == t[reqs[i].line].detail.times
  }

  /** SetBreakpoints replaces the breakpoints of the file and answers each request; other
      files, functions and filters stay. */
  lemma SetLinesReplaces(st: State, file: string, reqs: seq<Request>, resolve: Resolver)
    requires Valid(st) && reqs != []
    ensures var r, s := Apply(st, SetLines(file, reqs, resolve)), Replaced(st, file, reqs, resolve);
      && r == State(st.lines[file := s.table], st.funcs, st.exceptions, s.next)
      && TableReplaced(st, file, reqs, resolve, s.table, s.next)
      && Answered(reqs, s.table, ToBreakpoints(s.out))
  {
    var asks, s := Asks(file, reqs, resolve), Replaced(st, file, reqs, resolve);
    SyncKeys(Table(st, file), st.next, asks);
    FileDistinct(st, file);
    SyncDistinct(Table(st, file), st.next, asks);
    forall l ensures l in s.table <==> Requests(reqs, l) { AskedLines(file, reqs, resolve, l); }
    forall l | l in s.table ensures LineReplaced(st, file, reqs, resolve, l, s.table[l], s.next) {
      LineSent(st, file, reqs, resolve, l);
    }
    SetLinesAnswers(st, file, reqs, resolve);
  }

  lemma LineSent(st: State, file: string, reqs: seq<Request>, resolve: Resolver, l: int)
    requires l in Replaced(st, file, reqs, resolve).table && Requests(reqs, l)
    ensures var s := Replaced(st, file, reqs, resolve); LineReplaced(st, file, reqs, resolve, l, s.table[l], s.next)
  {
    var asks := Asks(file, reqs, resolve);
    SyncAt(Table(st, file), st.next, asks, l);
    AskedCondition(file, reqs, resolve, l);
    assert asks[FirstAsk(asks, l)].initial == NewLine(file, l, resolve);
  }

  lemma SetLinesAnswers(st: State, file: string, reqs: seq<Request>, resolve: Resolver)
    requires LinesNamed(st) && reqs != []
    ensures var s := Replaced(st, file, reqs, resolve); Answered(reqs, s.table, ToBreakpoints(s.out))
  {
    var asks, s := Asks(file, reqs, resolve), Replaced(st, file, reqs, resolve);
    SyncAnswers(Table(st, file), st.next, asks);
    SetLinesNamed(st, file, reqs, resolve);
    forall i | 0 <= i < |reqs|
      ensures reqs[i].line in s.table && s.table[reqs[i].line].detail.linenum == reqs[i].line
    {
      assert asks[i].key == reqs[i].line;
      assert s.table == Apply(st, SetLines(file, reqs, resolve)).lines[file];
    }
  }

  // ---------------------------------------------------------------- function replacement

  /** Request `i` is the last, or the first, for the key. */
  ghost predicate LastFor(reqs: seq<FuncRequest>, k: string, i: nat) {
    i < |reqs| && FullName(reqs[i]) == k && forall j | i < j < |reqs| :: FullName(reqs[j]) != k
  }

  ghost predicate FirstFor(reqs: seq<FuncRequest>, k: string, i: nat) {
    i < |reqs| && FullName(reqs[i]) == k && forall j | 0 <= j < i :: FullName(reqs[j]) != k
  }

  predicate Requested(reqs: seq<FuncRequest>, k: string) {
    exists i :: 0 <= i < |reqs| && FullName(reqs[i]) == k
  }

  lemma AskedKeys(reqs: seq<FuncRequest>, resolve: FuncResolver, k: string)
    ensures k in Tables.Keys(FuncAsks(reqs, resolve)) <==> Requested(reqs, k)
  {
    var asks := FuncAsks(reqs, resolve);
    if Requested(reqs, k) {
      var i :| 0 <= i < |reqs| && FullName(reqs[i]) == k;
      assert asks[i].key == k;
    }
    if k in Tables.Keys(asks) { assert FullName(reqs[FirstAsk(asks, k)]) == k; }
  }

  lemma AskedEnds(reqs: seq<FuncRequest>, resolve: FuncResolver, k: string)
    requires k in Tables.Keys(FuncAsks(reqs, resolve))
    ensures forall i: nat | LastFor(reqs, k, i) :: LastAsk(FuncAsks(reqs, resolve), k) == i
    ensures forall i: nat | FirstFor(reqs, k, i) :: FirstAsk(FuncAsks(reqs, resolve), k) == i
  {
    var asks := FuncAsks(reqs, resolve);
    assert forall i | 0 <= i < |reqs| :: asks[i].key == FullName(reqs[i]);
    assert FullName(reqs[LastAsk(asks, k)]) == k && FullName(reqs[FirstAsk(asks, k)]) == k;
  }

  /** The record of a requested function: the last condition; what the table had, or else a new id,
      the names of the first request, and what the symbols say, enabled and not hit. */
  ghost predicate FuncReplaced(st: State, reqs: seq<FuncRequest>, resolve: FuncResolver, k: string,
                               b: Record<FuncDetail>, next: nat) {
    && (forall i: nat | LastFor(reqs, k, i) :: b.condition == reqs[i].condition)
    && (k in st.funcs ==> b.id == st.funcs[k].id && b.detail == st.funcs[k].detail)
    && (k !in st.funcs ==>
          && st.next <= b.id < next
          && forall i: nat | FirstFor(reqs, k, i) ::
               var q := reqs[i];
               b.detail == FuncDetail(q.mod, q.func, q.params, 0, true, resolve(q.mod, q.func)))
  }

  /** SetFunctionBreakpoints replaces the function breakpoints; lines and filters stay. */
  lemma SetFuncsReplaces(st: State, reqs: seq<FuncRequest>, resolve: FuncResolver)
    ensures var r := Apply(st, SetFuncs(reqs, resolve));
      && r.lines == st.lines && r.exceptions == st.exceptions
      && (forall k :: k in r.funcs <==> Requested(reqs, k))
      && forall k | k in r.funcs :: FuncReplaced(st, reqs, resolve, k, r.funcs[k], r.next)
  {
    var asks, r := FuncAsks(reqs, resolve), Apply(st, SetFuncs(reqs, resolve));
    SyncKeys(st.funcs, st.next, asks);
    forall k ensures k in r.funcs <==> Requested(reqs, k) { AskedKeys(reqs, resolve, k); }
    forall k | k in r.funcs ensures FuncReplaced(st, reqs, resolve, k, r.funcs[k], r.next) {
      FuncSent(st, reqs, resolve, k);
    }
  }

  lemma FuncSent(st: State, reqs: seq<FuncRequest>, resolve: FuncResolver, k: string)
    requires k in Sync(st.funcs, st.next, FuncAsks(reqs, resolve)).table
    ensures var s := Sync(st.funcs, st.next, FuncAsks(reqs, resolve));
      FuncReplaced(st, reqs, resolve, k, s.table[k], s.next)
  {
    SyncAt(st.funcs, st.next, FuncAsks(reqs, resolve), k);
    AskedEnds(reqs, resolve, k);
  }

  /** A name as the parser gives it: no mark of a module in it, and parameters in brackets. */
  predicate Proper(q: FuncRequest) {
    && (forall i | 0 <= i < |q.func| :: q.func[i] != '!' && q.func[i] != '(')
    && (forall i | 0 <= i < |q.params| :: q.params[i] != '!')
    && (q.params == "" || q.params[0] == '(')
  }

  /** Two breakpoints have the same key exactly when module, name and parameters are the same. */
  lemma FullNameExact(a: FuncRequest, b: FuncRequest)
    requires Proper(a) && Proper(b)
    ensures FullName(a) == FullName(b) <==> a.mod == b.mod && a.func == b.func && a.params == b.params
  {
    if FullName(a) == FullName(b) {
      KeyParts(a);
      KeyParts(b);
      SplitOnce(if a.mod == "" then "" else a.mod + "!", a.func + a.params,
                if b.mod == "" then "" else b.mod + "!", b.func + b.params, '!');
        assert a.mod == b.mod by { assert (a.mod + "!")[..|a.mod|] == a.mod && (b.mod + "!")[..|b.mod|] == b.mod; }
      NameApart(a.func, a.params, b.func, b.params);
    }
  }

  lemma KeyParts(q: FuncRequest)
    requires Proper(q)
    ensures FullName(q) == (if q.mod == "" then "" else q.mod + "!") + (q.func + q.params)
    ensures forall i | 0 <= i < |q.func + q.params| :: (q.func + q.params)[i] != '!'
  {
  }

  /** Texts that are split behind the last mark, if there is one. */
  lemma SplitOnce(f: string, p: string, g: string, q: string, mark: char)
    requires f + p == g + q && (f == "" || f[|f| - 1] == mark) && (g == "" || g[|g| - 1] == mark)
    requires (forall i | 0 <= i < |p| :: p[i] != mark) && forall i | 0 <= i < |q| :: q[i] != mark
    ensures f == g && p == q
  {
    var x := f + p;
    assert (f == "" || x[|f| - 1] == mark) && (g == "" || x[|g| - 1] == mark);
    assert x[..|f|] == f && x[|f|..] == p && (g + q)[..|g|] == g && (g + q)[|g|..] == q;
  }

  /** Texts that are split at the first bracket, if there is one. */
  lemma NameApart(f: string, p: string, g: string, q: string)
    requires (forall i | 0 <= i < |f| :: f[i] != '(') && (forall i | 0 <= i < |g| :: g[i] != '(')
    requires (p == "" || p[0] == '(') && (q == "" || q[0] == '(') && f + p == g + q
    ensures f == g && p == q
  {
    var x := f + p;
    assert |f| >= |g| || p != "";
    assert |g| >= |f| || q != "";
    assert p != "" ==> x[|f|] == '(';
    assert q != "" ==> x[|g|] == '(';
    assert x[..|f|] == f && x[|f|..] == p && (g + q)[..|g|] == g && (g + q)[|g|..] == q;
  }

  // ---------------------------------------------------------------- the life of a breakpoint

  /** The breakpoint for the line has been there since operation `k - 1` made it. */
  ghost predicate LineSince(ops: seq<Op>, file: string, line: int, k: nat) {
    && 0 < k <= |ops| && line !in Table(Run(START, ops[..k - 1]), file)
    && forall j | k <= j <= |ops| :: line in Table(Run(START, ops[..j]), file)
  }

  ghost predicate FuncSince(ops: seq<Op>, name: string, k: nat) {
    && 0 < k <= |ops| && name !in Run(START, ops[..k - 1]).funcs
    && forall j | k <= j <= |ops| :: name in Run(START, ops[..j]).funcs
  }

  /** How often the operations hit the line, and the function. */
  function LineHits(ops: seq<Op>, file: string, line: int): nat {
    if ops == [] then 0
    else LineHits(ops[..|ops| - 1], file, line) + if ops[|ops| - 1] == Hit(file, line) then 1 else 0
  }

  function FuncHits(ops: seq<Op>, name: string): nat {
    if ops == [] then 0
    else FuncHits(ops[..|ops| - 1], name) + if ops[|ops| - 1] == HitFunc(name) then 1 else 0
  }

  /** What the symbols say during an operation that asks them. */
  function LineAnswer(op: Op, file: string, line: int): Option<Location> {
    match op
    case SetLines(_, _, resolve) => resolve(file, line)
    case ModuleLoaded(resolve, _) => resolve(file, line)
    case _ => None
  }

  function FuncAnswer(op: Op, mod: string, func: string): seq<FuncLocation> {
    match op
    case SetFuncs(_, resolve) => resolve(mod, func)
    case ModuleLoaded(_, resolveFunc) => resolveFunc(mod, func)
    case _ => []
  }

  /** The operations that bind it, when made by operation `m`: this one, and every load after it. */
  predicate Asking(ops: seq<Op>, m: nat, i: nat) {
    i < |ops| && (i == m || (i > m && ops[i].ModuleLoaded?))
  }

  /** Its place is the first one that the symbols gave. */
  ghost predicate FirstPlace(ops: seq<Op>, m: nat, file: string, line: int, d: LineDetail) {
    if forall i: nat | Asking(ops, m, i) :: LineAnswer(ops[i], file, line) == None
    then d.modAddress == 0 && d.methodToken == 0 && d.ilOffset == 0 && d.fullname == file
    else exists i: nat ::
           && Asking(ops, m, i)
           && (forall j: nat | j < i && Asking(ops, m, j) :: LineAnswer(ops[j], file, line) == None)
           && LineAnswer(ops[i], file, line) == Some(Location(d.modAddress, d.methodToken, d.ilOffset, d.fullname))
  }

  ghost predicate FirstPlaces(ops: seq<Op>, m: nat, d: FuncDetail) {
    if forall i: nat | Asking(ops, m, i) :: FuncAnswer(ops[i], d.mod, d.name) == [] then d.bound == []
    else exists i: nat ::
           && Asking(ops, m, i)
           && (forall j: nat | j < i && Asking(ops, m, j) :: FuncAnswer(ops[j], d.mod, d.name) == [])
           && d.bound == FuncAnswer(ops[i], d.mod, d.name) != []
  }

  /** One operation, for a line that is there before and after. */
  lemma LineStep(st: State, op: Op, file: string, line: int)
    requires Valid(st) && line in Table(st, file) && line in Table(Apply(st, op), file)
    ensures Table(Apply(st, op), file)[line].id == Table(st, file)[line].id
    ensures Table(Apply(st, op), file)[line].detail ==
      var r := Table(st, file)[line];
      match op
      case ModuleLoaded(resolve, _) =>
        if r.detail.modAddress == 0 then Bound(r.detail, resolve(r.detail.fullname, line)) else r.detail
      case Hit(f, l) => if f == file && l == line then r.detail.(times := r.detail.times + 1) else r.detail
      case _ => r.detail
  {
    if op.SetLines? && op.file == file {
      SetLinesReplaces(st, file, op.reqs, op.resolve);
      assert LineReplaced(st, file, op.reqs, op.resolve, line, Table(Apply(st, op), file)[line], Apply(st, op).next);
    }
  }

  /** An operation that makes a line. */
  lemma LineMade(st: State, op: Op, file: string, line: int)
    requires Valid(st) && line !in Table(st, file) && line in Table(Apply(st, op), file)
    ensures op.SetLines?
    ensures Table(Apply(st, op), file)[line].detail
         == Bound(LineDetail(0, 0, 0, file, line, true, 0), op.resolve(file, line))
  {
    if op.SetLines? && op.file == file {
      SetLinesReplaces(st, file, op.reqs, op.resolve);
      assert LineReplaced(st, file, op.reqs, op.resolve, line, Table(Apply(st, op), file)[line], Apply(st, op).next);
    }
  }

  lemma RunLast(ops: seq<Op>)
    requires ops != []
    ensures Run(START, ops) == Apply(Run(START, ops[..|ops| - 1]), ops[|ops| - 1])
    ensures Valid(Run(START, ops[..|ops| - 1]))
  {
    StartValid();
    RunKeeps(START, ops[..|ops| - 1]);
  }

  /** What holds of the breakpoint for the line in the table after the operations: it is enabled, was
      hit as often as they hit it since it was made, and is at the first place found from then on. */
  ghost predicate LineStory(ops: seq<Op>, file: string, line: int, k: nat, t: LineTable)
    requires 0 < k <= |ops|
  {
    && line in t
    && var d := t[line].detail;
    && d.linenum == line && d.enabled && d.times == LineHits(ops[k..], file, line)
    && FirstPlace(ops, k - 1, file, line, d)
  }

  lemma LineBegins(ops: seq<Op>, file: string, line: int, st: State)
    requires ops != [] && Valid(st) && line !in Table(st, file) && line in Table(Apply(st, ops[|ops| - 1]), file)
    ensures LineStory(ops, file, line, |ops|, Table(Apply(st, ops[|ops| - 1]), file))
  {
    var n := |ops| - 1;
    LineMade(st, ops[n], file, line);
    assert Asking(ops, n, n) && forall i: nat | Asking(ops, n, i) :: i == n;
  }

  lemma LineGoesOn(ops: seq<Op>, file: string, line: int, k: nat, st: State)
    requires 0 < k < |ops| && Valid(st) && LineStory(ops[..|ops| - 1], file, line, k, Table(st, file))
    requires line in Table(Apply(st, ops[|ops| - 1]), file)
    requires forall i, l | 0 <= i < |ops| && LineAnswer(ops[i], file, line) == Some(l) :: l.modAddress != 0
    ensures LineStory(ops, file, line, k, Table(Apply(st, ops[|ops| - 1]), file))
  {
    var n := |ops| - 1;
    LineStep(st, ops[n], file, line);
    assert ops[k..][..|ops[k..]| - 1] == ops[..n][k..];
    PlaceStep(ops, k - 1, file, line, Table(st, file)[line].detail, Table(Apply(st, ops[n]), file)[line].detail);
  }

  /** The run without its last operation. */
  lemma SinceBefore(ops: seq<Op>, file: string, line: int, k: nat)
    requires LineSince(ops, file, line, k) && k < |ops|
    ensures LineSince(ops[..|ops| - 1], file, line, k)
  {
    var init := ops[..|ops| - 1];
    assert init[..k - 1] == ops[..k - 1];
    forall j | k <= j <= |init| ensures line in Table(Run(START, init[..j]), file) { assert init[..j] == ops[..j]; }
  }

  /** A breakpoint for a line, over every run. */
  lemma {:induction false} LineHistory(ops: seq<Op>, file: string, line: int, k: nat)
    requires LineSince(ops, file, line, k)
    requires forall i, l | 0 <= i < |ops| && LineAnswer(ops[i], file, line) == Some(l) :: l.modAddress != 0
    ensures LineStory(ops, file, line, k, Table(Run(START, ops), file))
    decreases |ops|
  {
    var n := |ops| - 1;
    assert ops[..|ops|] == ops;
    RunLast(ops);
    if k == |ops| {
      LineBegins(ops, file, line, Run(START, ops[..n]));
    } else {
      SinceBefore(ops, file, line, k);
      LineHistory(ops[..n], file, line, k);
      LineGoesOn(ops, file, line, k, Run(START, ops[..n]));
    }
  }

  lemma PlaceStep(ops: seq<Op>, m: nat, file: string, line: int, before: LineDetail, after: LineDetail)
    requires m + 1 < |ops| && FirstPlace(ops[..|ops| - 1], m, file, line, before)
    requires forall i, l | 0 <= i < |ops| && LineAnswer(ops[i], file, line) == Some(l) :: l.modAddress != 0
    requires var op := ops[|ops| - 1];
      if op.ModuleLoaded? && before.modAddress == 0 then after == Bound(before, LineAnswer(op, before.fullname, line))
      else after == before.(times := after.times)
    ensures FirstPlace(ops, m, file, line, after)
  {
    var n, init := |ops| - 1, ops[..|ops| - 1];
    assert forall i: nat | i < n :: Asking(init, m, i) == Asking(ops, m, i) && init[i] == ops[i];
    if forall i: nat | Asking(init, m, i) :: LineAnswer(init[i], file, line) == None {
      if ops[n].ModuleLoaded? && LineAnswer(ops[n], file, line) != None { assert Asking(ops, m, n); }
    } else {
      var i: nat :|
        && Asking(init, m, i)
        && (forall j: nat | j < i && Asking(init, m, j) :: LineAnswer(init[j], file, line) == None)
        && LineAnswer(init[i], file, line)
           == Some(Location(before.modAddress, before.methodToken, before.ilOffset, before.fullname));
      assert Asking(ops, m, i);
    }
  }

  /** One operation, for a function that is there before and after. */
  lemma FuncStep(st: State, op: Op, name: string)
    requires name in st.funcs && name in Apply(st, op).funcs
    ensures Apply(st, op).funcs[name].id == st.funcs[name].id
    ensures Apply(st, op).funcs[name].detail ==
      var d := st.funcs[name].detail;
      match op
      case ModuleLoaded(_, resolveFunc) => if d.bound == [] then d.(bound := resolveFunc(d.mod, d.name)) else d
      case HitFunc(func) => if func == name then d.(times := d.times + 1) else d
      case _ => d
  {
    if op.SetFuncs? {
      SetFuncsReplaces(st, op.funcs, op.resolveFunc);
      assert FuncReplaced(st, op.funcs, op.resolveFunc, name, Apply(st, op).funcs[name], Apply(st, op).next);
    }
  }

  /** An operation that makes a function breakpoint. */
  lemma FuncMade(st: State, op: Op, name: string)
    requires name !in st.funcs && name in Apply(st, op).funcs
    ensures op.SetFuncs?
    ensures var d := Apply(st, op).funcs[name].detail;
      && FullName(FuncRequest(d.mod, d.name, d.params, "")) == name && d.times == 0 && d.enabled
      && d.bound == op.resolveFunc(d.mod, d.name)
  {
    if op.SetFuncs? {
      SetFuncsReplaces(st, op.funcs, op.resolveFunc);
      assert FuncReplaced(st, op.funcs, op.resolveFunc, name, Apply(st, op).funcs[name], Apply(st, op).next);
      var i := FirstRequest(op.funcs, name);
    }
  }

  lemma {:induction false} FirstRequest(reqs: seq<FuncRequest>, k: string) returns (i: nat)
    requires Requested(reqs, k)
    ensures FirstFor(reqs, k, i)
  {
    var j :| 0 <= j < |reqs| && FullName(reqs[j]) == k;
    if l :| 0 <= l < j && FullName(reqs[l]) == k {
      assert FullName(reqs[..j][l]) == k;
      i := FirstRequest(reqs[..j], k);
      assert forall l | 0 <= l < i :: reqs[..j][l] == reqs[l];
    } else {
      i := j;
    }
  }

  /** What holds of the function breakpoint after the operations: it is filed under its full name,
      enabled, was hit as often as they hit it since it was made, and is bound to the first places
      found from then on. */
  ghost predicate FuncStory(ops: seq<Op>, name: string, k: nat, t: map<string, Record<FuncDetail>>)
    requires 0 < k <= |ops|
  {
    && name in t
    && var d := t[name].detail;
    && FullName(FuncRequest(d.mod, d.name, d.params, "")) == name
    && d.enabled && d.times == FuncHits(ops[k..], name) && FirstPlaces(ops, k - 1, d)
  }

  lemma FuncBegins(ops: seq<Op>, name: string, st: State)
    requires ops != [] && name !in st.funcs && name in Apply(st, ops[|ops| - 1]).funcs
    ensures FuncStory(ops, name, |ops|, Apply(st, ops[|ops| - 1]).funcs)
  {
    var n := |ops| - 1;
    FuncMade(st, ops[n], name);
    assert Asking(ops, n, n) && forall i: nat | Asking(ops, n, i) :: i == n;
  }

  lemma FuncGoesOn(ops: seq<Op>, name: string, k: nat, st: State)
    requires 0 < k < |ops| && FuncStory(ops[..|ops| - 1], name, k, st.funcs)
    requires name in Apply(st, ops[|ops| - 1]).funcs
    ensures FuncStory(ops, name, k, Apply(st, ops[|ops| - 1]).funcs)
  {
    var n := |ops| - 1;
    FuncStep(st, ops[n], name);
    assert ops[k..][..|ops[k..]| - 1] == ops[..n][k..];
    PlacesStep(ops, k - 1, st.funcs[name].detail, Apply(st, ops[n]).funcs[name].detail);
  }

  lemma FuncSinceBefore(ops: seq<Op>, name: string, k: nat)
    requires FuncSince(ops, name, k) && k < |ops|
    ensures FuncSince(ops[..|ops| - 1], name, k)
  {
    var init := ops[..|ops| - 1];
    assert init[..k - 1] == ops[..k - 1];
    forall j | k <= j <= |init| ensures name in Run(START, init[..j]).funcs { assert init[..j] == ops[..j]; }
  }

  /** A function breakpoint, over every run. */
  lemma {:induction false} FuncHistory(ops: seq<Op>, name: string, k: nat)
    requires FuncSince(ops, name, k)
    ensures FuncStory(ops, name, k, Run(START, ops).funcs)
    decreases |ops|
  {
    var n := |ops| - 1;
    assert ops[..|ops|] == ops;
    RunLast(ops);
    if k == |ops| {
      FuncBegins(ops, name, Run(START, ops[..n]));
    } else {
      FuncSinceBefore(ops, name, k);
      FuncHistory(ops[..n], name, k);
      FuncGoesOn(ops, name, k, Run(START, ops[..n]));
    }
  }

  lemma PlacesStep(ops: seq<Op>, m: nat, before: FuncDetail, after: FuncDetail)
    requires m + 1 < |ops| && FirstPlaces(ops[..|ops| - 1], m, before)
    requires var op := ops[|ops| - 1];
      if op.ModuleLoaded? && before.bound == [] then after == before.(bound := FuncAnswer(op, before.mod, before.name))
      else after == before.(times := after.times)
    ensures FirstPlaces(ops, m, after)
  {
    var n, init := |ops| - 1, ops[..|ops| - 1];
    assert forall i: nat | i < n :: Asking(init, m, i) == Asking(ops, m, i) && init[i] == ops[i];
    if forall i: nat | Asking(init, m, i) :: FuncAnswer(init[i], before.mod, before.name) == [] {
      if ops[n].ModuleLoaded? && after.bound != [] { assert Asking(ops, m, n); }
    } else {
      var i: nat :|
        && Asking(init, m, i)
        && (forall j: nat | j < i && Asking(init, m, j) :: FuncAnswer(init[j], before.mod, before.name) == [])
        && before.bound == FuncAnswer(init[i], before.mod, before.name) != [];
      assert Asking(ops, m, i);
    }
  }

  // ---------------------------------------------------------------- the class

  method RequestedLines(file: string, reqs: seq<Request>, ghost resolve: Resolver) returns (lines: set<int>)
    ensures lines == Tables.Keys(Asks(file, reqs, resolve))
  {
    ghost var asks := Asks(file, reqs, resolve);
    lines := {};
    for i := 0 to |reqs|
      invariant lines == Tables.Keys(asks[..i])
    {
      KeysSnoc(asks[..i + 1]);
      assert asks[..i + 1][..i] == asks[..i];
      lines := lines + {reqs[i].line};
    }
    assert asks[..|reqs|] == asks;
  }

  method RequestedNames(reqs: seq<FuncRequest>, ghost resolve: FuncResolver) returns (names: set<string>)
    ensures names == Tables.Keys(FuncAsks(reqs, resolve))
  {
    ghost var asks := FuncAsks(reqs, resolve);
    names := {};
    for i := 0 to |reqs|
      invariant names == Tables.Keys(asks[..i])
    {
      KeysSnoc(asks[..i + 1]);
      assert asks[..i + 1][..i] == asks[..i];
      names := names + {FullName(reqs[i])};
    }
    assert asks[..|reqs|] == asks;
  }

  lemma ToBreakpointsSnoc(rs: seq<Record<LineDetail>>, r: Record<LineDetail>)
    ensures ToBreakpoints(rs + [r]) == ToBreakpoints(rs) + [ToBreakpoint(r)]
  {
  }

  /** The loop of SetBreakpoints over the requests. */
  method ExportLines(kept: LineTable, first: nat, file: string, reqs: seq<Request>, resolve: Resolver)
    returns (table: LineTable, next: nat, out: seq<Breakpoint>)
    ensures var s := Export(kept, first, Asks(file, reqs, resolve));
      table == s.table && next == s.next && out == ToBreakpoints(s.out)
  {
    ghost var asks := Asks(file, reqs, resolve);
    ghost var records: seq<Record<LineDetail>> := [];
    table, next, out := kept, first, [];
    for i := 0 to |reqs|
      invariant Synced(table, next, records) == Export(kept, first, asks[..i])
      invariant out == ToBreakpoints(records)
    {
      ExportUpTo(kept, first, asks, i);
      var line := reqs[i].line;
      if line !in table {
        table := table[line := Record(next, reqs[i].condition, NewLine(file, line, resolve))];
        next := next + 1;
      } else {
        table := table[line := table[line].(condition := reqs[i].condition)];
      }
      ToBreakpointsSnoc(records, table[line]);
      out := out + [ToBreakpoint(table[line])];
      records := records + [table[line]];
    }
    assert asks[..|reqs|] == asks;
  }

  /** The loop of SetFunctionBreakpoints over the requests. */
  method ExportFuncs(kept: map<string, Record<FuncDetail>>, first: nat, reqs: seq<FuncRequest>, resolve: FuncResolver)
    returns (table: map<string, Record<FuncDetail>>, next: nat, out: seq<Record<FuncDetail>>)
    ensures Synced(table, next, out) == Export(kept, first, FuncAsks(reqs, resolve))
  {
    ghost var asks := FuncAsks(reqs, resolve);
    table, next, out := kept, first, [];
    for i := 0 to |reqs|
      invariant Synced(table, next, out) == Export(kept, first, asks[..i])
    {
      ExportUpTo(kept, first, asks, i);
      var r := reqs[i];
      var name := FullName(r);
      if name !in table {
        var detail := FuncDetail(r.mod, r.func, r.params, 0, true, resolve(r.mod, r.func));
        table := table[name := Record(next, r.condition, detail)];
        next := next + 1;
      } else {
        table := table[name := table[name].(condition := r.condition)];
      }
      out := out + [table[name]];
    }
    assert asks[..|reqs|] == asks;
  }

  /** An unbound breakpoint that the symbols know. */
  predicate Binds(r: Record<LineDetail>, resolve: Resolver) {
    r.detail.modAddress == 0 && resolve(r.detail.fullname, r.detail.linenum).Some?
  }

  predicate Announced(table: LineTable, resolve: Resolver, line: int, event: Breakpoint) {
    line in table && Binds(table[line], resolve) && event == ToBreakpoint(Rebound(table[line], resolve))
  }

  /** `lines` has, each once, the lines of the breakpoints that are bound, and `events` the
      breakpoints as bound. */
  ghost predicate Announces(table: LineTable, resolve: Resolver, lines: seq<int>, events: seq<Breakpoint>) {
    && |events| == |lines|
    && (forall i, j | 0 <= i < j < |lines| :: lines[i] != lines[j])
    && (forall i | 0 <= i < |lines| :: Announced(table, resolve, lines[i], events[i]))
    && (forall l | l in table && Binds(table[l], resolve) :: l in lines)
  }

  /** The inner loop, over the breakpoints of a file, in some order. */
  method RebindTable(table: LineTable, resolve: Resolver)
    returns (after: LineTable, events: seq<Breakpoint>, ghost lines: seq<int>)
    ensures after == ReboundTable(table, resolve) && Announces(table, resolve, lines, events)
  {
    after, events, lines := table, [], [];
    var todo := table.Keys;
    while todo != {}
      invariant todo <= table.Keys && after.Keys == table.Keys
      invariant forall l | l in table :: after[l] == if l in todo then table[l] else Rebound(table[l], resolve)
      invariant |events| == |lines| && forall i, j | 0 <= i < j < |lines| :: lines[i] != lines[j]
      invariant forall i | 0 <= i < |lines| :: lines[i] !in todo && Announced(table, resolve, lines[i], events[i])
      invariant forall l | l in table && l !in todo && Binds(table[l], resolve) :: l in lines
      decreases todo
    {
      var line := Pick(todo);
      var b := after[line];
      if b.detail.modAddress == 0 {
        var found := resolve(b.detail.fullname, b.detail.linenum);
        if found.Some? {
          b := b.(detail := Bound(b.detail, found));
          after := after[line := b];
          events, lines := events + [ToBreakpoint(b)], lines + [line];
        }
      }
      todo := todo - {line};
    }
    assert forall l: int :: l !in todo;
    assert after.Keys == ReboundTable(table, resolve).Keys;
    assert forall l | l in after :: after[l] == ReboundTable(table, resolve)[l];
  }

  /** The events of several files, one after the other. */
  ghost predicate AllAnnounced(tables: map<string, LineTable>, resolve: Resolver, files: seq<string>,
                               events: seq<Breakpoint>) {
    if files == [] then events == []
    else
      var file := files[|files| - 1];
      && file in tables
      && exists k, lines | 0 <= k <= |events| ::
           AllAnnounced(tables, resolve, files[..|files| - 1], events[..k])
             && Announces(tables[file], resolve, lines, events[k..])
  }

  lemma AnnouncedNext(tables: map<string, LineTable>, resolve: Resolver, files: seq<string>, events: seq<Breakpoint>,
                      file: string, lines: seq<int>, more: seq<Breakpoint>)
    requires AllAnnounced(tables, resolve, files, events) && file in tables
      && Announces(tables[file], resolve, lines, more)
    ensures AllAnnounced(tables, resolve, files + [file], events + more)
  {
    var all, fs := events + more, files + [file];
    assert fs[..|fs| - 1] == files && all[..|events|] == events && all[|events|..] == more;
  }

  /** The loop over the files. */
  method RebindLines(tables: map<string, LineTable>, resolve: Resolver)
    returns (after: map<string, LineTable>, events: seq<Breakpoint>, ghost files: seq<string>)
    ensures after == ReboundTables(tables, resolve)
    ensures Lists(files, tables.Keys) && AllAnnounced(tables, resolve, files, events)
  {
    after, events, files := tables, [], [];
    var todo := tables.Keys;
    while todo != {}
      invariant todo <= tables.Keys && after.Keys == tables.Keys
      invariant forall f | f in after :: after[f] == if f in todo then tables[f] else ReboundTable(tables[f], resolve)
      invariant Lists(files, tables.Keys - todo) && AllAnnounced(tables, resolve, files, events)
      decreases todo
    {
      var file :| file in todo;
      var table, more, lines := RebindTable(tables[file], resolve);
      AnnouncedNext(tables, resolve, files, events, file, lines, more);
      ListsNext(files, tables.Keys - todo, file);
      assert tables.Keys - (todo - {file}) == tables.Keys - todo + {file};
      after := after[file := table];
      events, files := events + more, files + [file];
      todo := todo - {file};
    }
    assert tables.Keys - todo == tables.Keys;
  }

  /** What one module says about functions: nothing under the name of another module. */
  function InModule(isName: string -> bool, resolve: FuncResolver): FuncResolver {
    (mod, name) => if mod == "" || isName(mod) then resolve(mod, name) else []
  }

  /** A function breakpoint that is not bound and may be in the module. */
  predicate Sought(r: Record<FuncDetail>, isName: string -> bool) {
    r.detail.bound == [] && (r.detail.mod == "" || isName(r.detail.mod))
  }

  predicate FuncAnnounced(funcs: map<string, Record<FuncDetail>>, isName: string -> bool, resolve: FuncResolver,
                          name: string, event: Record<FuncDetail>) {
    name in funcs && Sought(funcs[name], isName) && event == ReboundFunc(funcs[name], InModule(isName, resolve))
  }

  /** `names` has, each once, the sought function breakpoints, and `events` the breakpoints
      afterwards, whether a function was found for them or not. */
  ghost predicate FuncsAnnounced(funcs: map<string, Record<FuncDetail>>, isName: string -> bool, resolve: FuncResolver,
                                 names: seq<string>, events: seq<Record<FuncDetail>>) {
    && |events| == |names|
    && (forall i, j | 0 <= i < j < |names| :: names[i] != names[j])
    && (forall i | 0 <= i < |names| :: FuncAnnounced(funcs, isName, resolve, names[i], events[i]))
    && (forall name | name in funcs && Sought(funcs[name], isName) :: name in names)
  }

  /** The events of a load for functions: exactly those for breakpoints that are not bound and name no
      module or this one; each has its names, id and condition, and is bound to what the module has. */
  lemma FuncEventsExact(funcs: map<string, Record<FuncDetail>>, isName: string -> bool, resolve: FuncResolver,
                        names: seq<string>, events: seq<Record<FuncDetail>>, name: string)
    requires FuncsAnnounced(funcs, isName, resolve, names, events)
    ensures name in names <==>
      && name in funcs && funcs[name].detail.bound == []
      && (funcs[name].detail.mod == "" || isName(funcs[name].detail.mod))
    ensures forall i | 0 <= i < |names| && names[i] == name ::
              var d := funcs[name].detail;
              events[i] == funcs[name].(detail := d.(bound := resolve(d.mod, d.name)))
  {
    forall i | 0 <= i < |names| && names[i] == name
      ensures var d := funcs[name].detail; events[i] == funcs[name].(detail := d.(bound := resolve(d.mod, d.name)))
    {
      assert FuncAnnounced(funcs, isName, resolve, names[i], events[i]);
    }
    if name in names {
      var i :| 0 <= i < |names| && names[i] == name;
      assert FuncAnnounced(funcs, isName, resolve, names[i], events[i]);
    }
  }

  /** A breakpoint is among the events of a load, unchanged and unbound, exactly when it is not bound,
      names no module or this one, and the module does not have its function. */
  lemma UnfoundAnnounced(funcs: map<string, Record<FuncDetail>>, isName: string -> bool, resolve: FuncResolver,
                         names: seq<string>, events: seq<Record<FuncDetail>>, name: string)
    requires FuncsAnnounced(funcs, isName, resolve, names, events) && name in funcs
    ensures var d := funcs[name].detail;
      (exists i :: 0 <= i < |names| && names[i] == name && events[i] == funcs[name] && events[i].detail.bound == [])
      <==> d.bound == [] && (d.mod == "" || isName(d.mod)) && resolve(d.mod, d.name) == []
  {
    FuncEventsExact(funcs, isName, resolve, names, events, name);
    var d := funcs[name].detail;
    if name in names && resolve(d.mod, d.name) == [] {
      var i :| 0 <= i < |names| && names[i] == name;
      assert d.(bound := []) == d;
    }
  }

  /** The events of a load for the lines of a file: exactly those for breakpoints that are not bound and
      whose line the module has; each is then bound to that place, and all else of it is as before. */
  lemma LineEventsExact(table: LineTable, resolve: Resolver, lines: seq<int>, events: seq<Breakpoint>, line: int)
    requires Announces(table, resolve, lines, events)
    ensures line in lines <==>
      && line in table && table[line].detail.modAddress == 0
      && resolve(table[line].detail.fullname, table[line].detail.linenum) != None
    ensures forall i | 0 <= i < |lines| && lines[i] == line ::
              && line in table
              && resolve(table[line].detail.fullname, table[line].detail.linenum).Some?
              && var r, l := table[line], resolve(table[line].detail.fullname, table[line].detail.linenum).value;
              events[i]
              == Breakpoint(r.id, l.modAddress != 0, r.condition, l.fullname, r.detail.linenum, r.detail.times)
  {
    if line in lines {
      var i :| 0 <= i < |lines| && lines[i] == line;
      assert Announced(table, resolve, lines[i], events[i]);
    }
  }

  /** What a load does to function breakpoints: exactly those not bound that name no module or this one
      are bound to what it has. */
  lemma LoadedFuncs(st: State, resolve: Resolver, isName: string -> bool, resolveFunc: FuncResolver, name: string)
    requires name in st.funcs
    ensures var r, d := Apply(st, ModuleLoaded(resolve, InModule(isName, resolveFunc))), st.funcs[name].detail;
      && name in r.funcs
      && r.funcs[name] == st.funcs[name].(detail := d.(bound :=
           if d.bound == [] && (d.mod == "" || isName(d.mod)) then resolveFunc(d.mod, d.name) else d.bound))
  {
  }

  /** What each operation leaves alone, and what deleting all breakpoints and adding a filter leave. */
  lemma ApplyOnly(st: State, op: Op)
    requires Valid(st)
    ensures var r := Apply(st, op);
      && (!op.InsertException? && !op.DeleteException? ==> r.exceptions == st.exceptions)
      && (!op.SetFuncs? && !op.ModuleLoaded? && !op.HitFunc? ==> r.funcs == st.funcs)
      && (op.SetFuncs? || op.InsertException? || op.DeleteException? || op.HitFunc? ==> r.lines == st.lines)
      && (op.SetLines? ==> forall f | f != op.file :: Table(r, f) == Table(st, f))
      && (op.SetLines? && op.reqs == [] ==> op.file !in r.lines)
      && (op.DeleteAll? ==> r.lines == map[] && r.next == st.next)
      && (op.InsertException? ==> r.next == st.next + 1 && st.next in r.exceptions.table
                                  && r.exceptions.table[st.next] == op.name)
      && (op.DeleteException? ==> op.id !in r.exceptions.table)
  {
    if op.InsertException? { InsertExceptionKeeps(st, op.mode, op.name); }
  }

  /** The loop over the function breakpoints. */
  method RebindFunctions(funcs: map<string, Record<FuncDetail>>, isName: string -> bool, resolve: FuncResolver)
    returns (after: map<string, Record<FuncDetail>>, events: seq<Record<FuncDetail>>, ghost names: seq<string>)
    ensures after == map f | f in funcs :: ReboundFunc(funcs[f], InModule(isName, resolve))
    ensures FuncsAnnounced(funcs, isName, resolve, names, events)
  {
    after, events, names := funcs, [], [];
    var todo := funcs.Keys;
    while todo != {}
      invariant todo <= funcs.Keys && after.Keys == funcs.Keys
      invariant forall f | f in after ::
        after[f] == if f in todo then funcs[f] else ReboundFunc(funcs[f], InModule(isName, resolve))
      invariant |events| == |names| && forall i, j | 0 <= i < j < |names| :: names[i] != names[j]
      invariant forall i | 0 <= i < |names| ::
        names[i] !in todo && FuncAnnounced(funcs, isName, resolve, names[i], events[i])
      invariant forall name | name in funcs && name !in todo && Sought(funcs[name], isName) :: name in names
      decreases todo
    {
      var name :| name in todo;
      var b := funcs[name];
      if b.detail.bound == [] && (b.detail.mod == "" || isName(b.detail.mod)) {
        b := b.(detail := b.detail.(bound := resolve(b.detail.mod, b.detail.name)));
        after := after[name := b];
        events, names := events + [b], names + [name];
      }
      todo := todo - {name};
    }
    assert forall f: string :: f !in todo;
  }

  class Breakpoints {
    var breakpoints: map<string, LineTable>
    var funcBreakpoints: map<string, Record<FuncDetail>>
    const exceptionBreakpoints: Exceptions.ExceptionBreakpointStorage
    var nextBreakpointId: nat
    var stopAtEntry: bool
    var entryPoint: int
    var entryBreakpoint: Option<EntryPoints.Spot>

    function Current(): State
      reads this, exceptionBreakpoints
    {
      State(breakpoints, funcBreakpoints, exceptionBreakpoints.State(), nextBreakpointId)
    }

    function Entry(): EntryPoints.State
      reads this
    {
      EntryPoints.State(stopAtEntry, entryPoint, entryBreakpoint)
    }

    constructor ()
      ensures Current() == START && Entry() == EntryPoints.START && fresh(exceptionBreakpoints)
    {
      breakpoints, funcBreakpoints, nextBreakpointId := map[], map[], 1;
      stopAtEntry, entryPoint, entryBreakpoint := false, EntryPoints.NIL, None;
      exceptionBreakpoints := new Exceptions.ExceptionBreakpointStorage();
    }

    method SetStopAtEntry(stop: bool)
      modifies this`stopAtEntry
      ensures Entry() == EntryPoints.Next(old(Entry()), EntryPoints.Setting(stop))
    {
      stopAtEntry := stop;
    }

    /** A stop at a breakpoint; none when it is not a function breakpoint. */
    method HitEntry(at: Option<EntryPoints.Spot>) returns (atEntry: bool)
      modifies this`entryBreakpoint
      ensures atEntry == (at.Some? && EntryPoints.AtEntry(old(Entry()), at.value))
      ensures Entry()
           == if at.Some? then EntryPoints.Next(old(Entry()), EntryPoints.Stopped(at.value)) else old(Entry())
    {
      if !stopAtEntry || at.None? || entryBreakpoint != at {
        return false;
      }
      entryBreakpoint := None;
      atEntry := true;
    }

    /** `token` is that of the entry point in the module's file. */
    method TrySetupEntryBreakpoint(file: string, token: int) returns (done: bool)
      modifies this`entryPoint, this`entryBreakpoint
      ensures Entry() == EntryPoints.Next(old(Entry()), EntryPoints.Loaded(file, token))
      ensures done == (old(stopAtEntry) && old(entryPoint) == EntryPoints.NIL && token != EntryPoints.NIL)
    {
      if !stopAtEntry || entryPoint != EntryPoints.NIL || token == EntryPoints.NIL {
        return false;
      }
      entryPoint, entryBreakpoint := token, Some(EntryPoints.Spot(file, token, 0));
      done := true;
    }

    method SetBreakpoints(file: string, reqs: seq<Request>, resolve: Resolver) returns (out: seq<Breakpoint>)
      modifies this`breakpoints, this`nextBreakpointId
      ensures Current() == Apply(old(Current()), SetLines(file, reqs, resolve))
      ensures out == ToBreakpoints(if reqs == [] then [] else Replaced(old(Current()), file, reqs, resolve).out)
    {
      out := [];
      if reqs == [] {
        breakpoints := breakpoints - {file};
        return;
      }
      var before: LineTable := if file in breakpoints then breakpoints[file] else map[];
      var lines := RequestedLines(file, reqs, resolve);
      var table := Retain(before, lines);
      table, nextBreakpointId, out := ExportLines(table, nextBreakpointId, file, reqs, resolve);
      breakpoints := breakpoints[file := table];
    }

    method SetFunctionBreakpoints(reqs: seq<FuncRequest>, resolve: FuncResolver)
      returns (out: seq<Record<FuncDetail>>)
      modifies this`funcBreakpoints, this`nextBreakpointId
      ensures Current() == Apply(old(Current()), SetFuncs(reqs, resolve))
      ensures out == Sync(old(funcBreakpoints), old(nextBreakpointId), FuncAsks(reqs, resolve)).out
    {
      var names := RequestedNames(reqs, resolve);
      var kept := Retain(funcBreakpoints, names);
      funcBreakpoints, nextBreakpointId, out := ExportFuncs(kept, nextBreakpointId, reqs, resolve);
    }

    method InsertExceptionBreakpoint(mode: Exceptions.Mode, name: string) returns (ok: bool, rid: nat)
      modifies this`nextBreakpointId, exceptionBreakpoints
      ensures Current() == Apply(old(Current()), InsertException(mode, name))
      ensures ok == Exceptions.InsertOk(old(Current()).exceptions, name)
      ensures ok ==> rid == old(nextBreakpointId)
    {
      rid := 0;
      ok := exceptionBreakpoints.Insert(nextBreakpointId, mode, name);
      if ok {
        rid := nextBreakpointId;
        nextBreakpointId := nextBreakpointId + 1;
      }
    }

    method DeleteExceptionBreakpoint(id: nat) returns (ok: bool)
      modifies exceptionBreakpoints
      ensures Current() == Apply(old(Current()), DeleteException(id))
      ensures ok == (id in old(Current()).exceptions.table)
    {
      ok := exceptionBreakpoints.Delete(id);
    }

    /** Bindings that a newly loaded module makes possible.  The files are visited once each, in
        some order, and for each line breakpoint that is bound there is one event; for each
        function breakpoint that is sought there is one event, found or not. */
    method TryResolveBreakpointsForModule(resolve: Resolver, isName: string -> bool, resolveFunc: FuncResolver,
                                          moduleFile: string, entryToken: int)
      returns (events: seq<Breakpoint>, funcEvents: seq<Record<FuncDetail>>,
               ghost files: seq<string>, ghost names: seq<string>)
      modifies this`breakpoints, this`funcBreakpoints, this`entryPoint, this`entryBreakpoint
      ensures Current() == Apply(old(Current()), ModuleLoaded(resolve, InModule(isName, resolveFunc)))
      ensures Entry() == EntryPoints.Next(old(Entry()), EntryPoints.Loaded(moduleFile, entryToken))
      ensures Lists(files, old(breakpoints).Keys) && AllAnnounced(old(breakpoints), resolve, files, events)
      ensures FuncsAnnounced(old(funcBreakpoints), isName, resolveFunc, names, funcEvents)
    {
      breakpoints, events, files := RebindLines(breakpoints, resolve);
      funcBreakpoints, funcEvents, names := RebindFunctions(funcBreakpoints, isName, resolveFunc);
      var _ := TrySetupEntryBreakpoint(moduleFile, entryToken);
    }

    method HitManagedBreakpoint(p: SequencePoints.Point, token: int, il: int, holds: string -> bool)
      returns (r: Option<Breakpoint>)
      modifies this`breakpoints
      ensures match FindHit(old(Current()), p, token, il, holds)
        case None => r == None && Current() == old(Current())
        case Some((file, line)) =>
          && Current() == Apply(old(Current()), Hit(file, line))
          && file in breakpoints && line in breakpoints[file]
          && r == Some(ToBreakpoint(breakpoints[file][line]))
    {
      var file := p.document;
      if file !in breakpoints {
        file := SequencePoints.FileName(p.document);
        if file !in breakpoints {
          return None;
        }
      }
      var table := breakpoints[file];
      if p.startLine !in table {
        return None;
      }
      var b := table[p.startLine];
      if b.detail.ilOffset == il && b.detail.methodToken == token && b.detail.enabled {
        if b.condition != "" && !holds(b.condition) {
          return None;
        }
        table := table[p.startLine := Counted(b)];
        breakpoints := breakpoints[file := table];
        return Some(ToBreakpoint(table[p.startLine]));
      }
      r := None;
    }

    method DeleteAllBreakpoints()
      modifies this`breakpoints, this`entryPoint, this`entryBreakpoint
      ensures Current() == Apply(old(Current()), DeleteAll)
      ensures Entry() == EntryPoints.Next(old(Entry()), EntryPoints.Cleared)
    {
      breakpoints := map[];
      entryBreakpoint := None;
      entryPoint := EntryPoints.NIL;
    }
  }
}
