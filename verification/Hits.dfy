/**
 Breakpoints and symbols together: what a breakpoint is bound to is what the program stops
 at, so a bound breakpoint is hit, exactly when it is filed under the name it is looked up by, and
 what a stop finds is bound to its module, exactly when no other module has a twin of the stop.
 */
module Hits {
  import opened Options
  import opened Tables
  import opened Engine
  import opened SequencePoints

  /** The engine and the modules loaded so far. */
  datatype Session = Session(engine: State, modules: seq<ModuleInfo>)

  function ToLocation(place: Option<Place>): Option<Location> {
    match place
    case None => None
    case Some(p) => Some(Location(p.address, p.token, p.ilOffset, p.fullname))
  }

  function ResolveInAny(modules: seq<ModuleInfo>): Resolver {
    (file: string, line: int) => ToLocation(LocationInAny(modules, Matcher(file), line))
  }

  function ResolveInModule(m: ModuleInfo): Resolver {
    (file: string, line: int) => ToLocation(LocationInModule(m, Matcher(file), line))
  }

  /** Without a process nothing is resolved. */
  function ResolveNothing(): Resolver {
    (file: string, line: int) => None
  }

  /** What happens in a session.  A setting searches the modules in some order, that of an
      unordered table. */
  datatype Event =
    | Set(file: string, reqs: seq<Request>, process: bool, order: seq<ModuleInfo>)
    | Load(m: ModuleInfo, resolveFunc: FuncResolver)
    | Other(op: Op)

  /** Requests and modules come with the symbols of the session, not by themselves. */
  predicate Allowed(e: Event) {
    e.Other? ==> !e.op.SetLines? && !e.op.ModuleLoaded?
  }

  ghost predicate WellFormedModule(m: ModuleInfo) {
    m.address != 0 && SequencePoints.WellFormed(m.methods)
  }

  ghost predicate WellFormedEvent(e: Event) {
    Allowed(e) && (e.Load? ==> WellFormedModule(e.m))
  }

  /** An order of the modules. */
  predicate Reorders(order: seq<ModuleInfo>, modules: seq<ModuleInfo>) {
    multiset(order) == multiset(modules)
  }

  lemma SameModules(order: seq<ModuleInfo>, modules: seq<ModuleInfo>)
    requires Reorders(order, modules)
    ensures forall m :: m in order <==> m in modules
  {
    assert forall m :: m in order <==> m in multiset(order);
    assert forall m :: m in modules <==> m in multiset(modules);
  }

  ghost predicate Possible(s: Session, e: Event) {
    WellFormedEvent(e) && (e.Set? ==> Reorders(e.order, s.modules))
  }

  function Next(s: Session, e: Event): Session {
    match e
    case Set(file, reqs, process, order) =>
      s.(engine := Apply(s.engine, SetLines(file, reqs, if process then ResolveInAny(order) else ResolveNothing())))
    case Load(m, resolveFunc) =>
      Session(Apply(s.engine, ModuleLoaded(ResolveInModule(m), resolveFunc)), s.modules + [m])
    case Other(op) => s.(engine := Apply(s.engine, op))
  }

  /** The detail is bound to a point of the module: the one that its offset belongs to. */
  predicate BoundTo(d: LineDetail, m: ModuleInfo) {
    && d.modAddress == m.address
    && match Lookup(m.methods, d.methodToken, d.ilOffset)
       case None => false
       case Some(p) => p.offset == d.ilOffset && p.startLine == d.linenum && p.document == d.fullname
  }

  /** The detail is bound to the place that the module gives for the file and line. */
  predicate LocatedBy(d: LineDetail, file: string, m: ModuleInfo) {
    LocationInModule(m, Matcher(file), d.linenum) == Some(Place(d.modAddress, d.methodToken, d.ilOffset, d.fullname))
  }

  /** What holds of every breakpoint filed under `file`: it is bound to the place that a loaded
      module gives for it, or to nothing. */
  ghost predicate Filed(file: string, d: LineDetail, modules: seq<ModuleInfo>) {
    && d.enabled
    && (d.modAddress == 0 ==> d.fullname == file && d.methodToken == 0 && d.ilOffset == 0)
    && (d.modAddress != 0 ==> exists m :: m in modules && LocatedBy(d, file, m))
  }

  ghost predicate AllFiled(s: Session) {
    && (forall m <- s.modules :: WellFormedModule(m))
    && forall f, l | f in s.engine.lines && l in s.engine.lines[f] ::
         s.engine.lines[f][l].detail.linenum == l && Filed(f, s.engine.lines[f][l].detail, s.modules)
  }

  /** On any line but the hidden one, such a place is a point of that line, in a document that
      matches the file. */
  ghost predicate OnPoint(file: string, d: LineDetail, modules: seq<ModuleInfo>) {
    d.modAddress != 0 && d.linenum != HIDDEN ==>
      FileMatches(file, d.fullname) && exists m :: m in modules && BoundTo(d, m)
  }

  lemma FiledOnPoint(file: string, d: LineDetail, modules: seq<ModuleInfo>)
    requires Filed(file, d, modules) && forall m <- modules :: WellFormedModule(m)
    ensures OnPoint(file, d, modules)
  {
    if d.modAddress != 0 && d.linenum != HIDDEN {
      var m :| m in modules && LocatedBy(d, file, m);
      LocationBinds(m, file, d.linenum, d);
    }
  }

  /** A resolved line is bound to a point at that line, in a document that matches. */
  lemma LocationBinds(m: ModuleInfo, file: string, line: int, d: LineDetail)
    requires WellFormedModule(m) && line != HIDDEN && d.linenum == line
    requires LocationInModule(m, Matcher(file), line).Some?
    ensures var b := Bound(d, ToLocation(LocationInModule(m, Matcher(file), line)));
      BoundTo(b, m) && FileMatches(file, b.fullname) && b.modAddress != 0
  {
    ResolveThenLookup(m.methods, Matcher(file), line);
  }

  lemma NewLineFiled(order: seq<ModuleInfo>, modules: seq<ModuleInfo>, file: string, line: int)
    requires Reorders(order, modules) && forall m <- modules :: WellFormedModule(m)
    ensures Filed(file, NewLine(file, line, ResolveInAny(order)), modules)
  {
    SameModules(order, modules);
    if LocationInAny(order, Matcher(file), line).Some? {
      var m := LocationComesFrom(order, Matcher(file), line);
      assert LocatedBy(NewLine(file, line, ResolveInAny(order)), file, m);
    }
  }

  lemma ReboundFiled(s: Session, m: ModuleInfo, file: string, r: Record<LineDetail>)
    requires WellFormedModule(m) && Filed(file, r.detail, s.modules)
    ensures Filed(file, Rebound(r, ResolveInModule(m)).detail, s.modules + [m])
  {
    if r.detail.modAddress == 0 && LocationInModule(m, Matcher(file), r.detail.linenum).Some? {
      assert LocatedBy(Rebound(r, ResolveInModule(m)).detail, file, m);
    }
  }

  lemma SetFiled(s: Session, file: string, reqs: seq<Request>, process: bool, order: seq<ModuleInfo>)
    requires AllFiled(s) && Reorders(order, s.modules)
    ensures AllFiled(Next(s, Set(file, reqs, process, order)))
  {
    if reqs != [] {
      var resolve := if process then ResolveInAny(order) else ResolveNothing();
      var asks := Asks(file, reqs, resolve);
      var r := Next(s, Set(file, reqs, process, order));
      forall f, l | f in r.engine.lines && l in r.engine.lines[f]
        ensures r.engine.lines[f][l].detail.linenum == l && Filed(f, r.engine.lines[f][l].detail, r.modules)
      {
        if f == file {
          SyncAt(Table(s.engine, file), s.engine.next, asks, l);
          if l !in Table(s.engine, file) {
            assert asks[FirstAsk(asks, l)].initial == NewLine(file, l, resolve);
            if process { NewLineFiled(order, s.modules, file, l); }
          }
        }
      }
    }
  }

  lemma LoadFiled(s: Session, m: ModuleInfo, resolveFunc: FuncResolver)
    requires AllFiled(s) && WellFormedModule(m)
    ensures AllFiled(Next(s, Load(m, resolveFunc)))
  {
    var r := Next(s, Load(m, resolveFunc));
    forall f, l | f in r.engine.lines && l in r.engine.lines[f]
      ensures r.engine.lines[f][l].detail.linenum == l && Filed(f, r.engine.lines[f][l].detail, r.modules)
    {
      ReboundFiled(s, m, f, s.engine.lines[f][l]);
    }
  }

  lemma NextFiled(s: Session, e: Event)
    requires AllFiled(s) && Possible(s, e)
    ensures AllFiled(Next(s, e))
  {
    match e
    case Set(file, reqs, process, order) => SetFiled(s, file, reqs, process, order);
    case Load(m, resolveFunc) => LoadFiled(s, m, resolveFunc);
    case Other(op) =>
  }

  function Session0(): Session {
    Session(START, [])
  }

  function RunSession(events: seq<Event>): Session {
    if events == [] then Session0() else Next(RunSession(events[..|events| - 1]), events[|events| - 1])
  }

  /** Every event is possible where it happens. */
  ghost predicate IsSession(events: seq<Event>) {
    events == []
    || (IsSession(events[..|events| - 1]) && Possible(RunSession(events[..|events| - 1]), events[|events| - 1]))
  }

  lemma {:induction false} RunFiled(events: seq<Event>)
    requires IsSession(events)
    ensures AllFiled(RunSession(events))
    ensures var s := RunSession(events);
      forall f, l | f in s.engine.lines && l in s.engine.lines[f] :: OnPoint(f, s.engine.lines[f][l].detail, s.modules)
  {
    var s := RunSession(events);
    if events != [] {
      RunFiled(events[..|events| - 1]);
      NextFiled(RunSession(events[..|events| - 1]), events[|events| - 1]);
    }
    forall f, l | f in s.engine.lines && l in s.engine.lines[f]
      ensures OnPoint(f, s.engine.lines[f][l].detail, s.modules)
    {
      FiledOnPoint(f, s.engine.lines[f][l].detail, s.modules);
    }
  }

  /** Exactly what a stop finds: the record for the point's line, filed under the document, or under
      its bare name while nothing is filed under the document; bound to the method and offset of
      the stop, enabled, and without condition or with one that is true. */
  lemma FoundExact(st: State, p: Point, token: int, il: int, holds: string -> bool, file: string, line: int)
    ensures FindHit(st, p, token, il, holds) == Some((file, line)) <==>
      && line == p.startLine
      && (file == p.document || (file == FileName(p.document) && p.document !in st.lines))
      && file in st.lines && line in st.lines[file]
      && var r := st.lines[file][line];
      && r.detail.methodToken == token && r.detail.ilOffset == il && r.detail.enabled
      && (r.condition != "" ==> holds(r.condition))
  {
  }

  /** A bound breakpoint of any reachable session: when the program stops where it is bound, it is
      the one found, exactly when it has no condition or one that is true, and is filed under the
      document's name, or under the bare file name while nothing is filed under the document. */
  lemma BoundIsHit(events: seq<Event>, file: string, line: int, m: ModuleInfo, holds: string -> bool)
    requires IsSession(events)
    requires var st := RunSession(events).engine;
      && file in st.lines && line in st.lines[file]
      && st.lines[file][line].detail.linenum == line && BoundTo(st.lines[file][line].detail, m)
    ensures var st := RunSession(events).engine;
      var r := st.lines[file][line];
      var p := Lookup(m.methods, r.detail.methodToken, r.detail.ilOffset).value;
      && p.offset == r.detail.ilOffset && p.startLine == line
      && (FindHit(st, p, r.detail.methodToken, r.detail.ilOffset, holds) == Some((file, line))
          <==> (r.condition != "" ==> holds(r.condition))
               && (file == p.document || (file == FileName(p.document) && p.document !in st.lines)))
  {
    RunFiled(events);
    var st := RunSession(events).engine;
    assert Filed(file, st.lines[file][line].detail, RunSession(events).modules);
  }

  lemma SetNewLine(s: Session, file: string, reqs: seq<Request>, line: int, order: seq<ModuleInfo>)
    requires Requests(reqs, line) && line !in Table(s.engine, file)
    ensures var st := Next(s, Set(file, reqs, true, order)).engine;
      && file in st.lines && line in st.lines[file]
      && st.lines[file][line].detail == NewLine(file, line, ResolveInAny(order))
      && st.lines[file][line].condition == LastCondition(reqs, line)
  {
    var resolve := ResolveInAny(order);
    var asks := Asks(file, reqs, resolve);
    AskedLines(file, reqs, resolve, line);
    AskedCondition(file, reqs, resolve, line);
    SyncReplaces(Table(s.engine, file), s.engine.next, asks);
    assert asks[FirstAsk(asks, line)].initial == NewLine(file, line, resolve);
  }

  /** Some module of the session has a point at the line. */
  ghost predicate LineKnownTo(modules: seq<ModuleInfo>, file: string, line: int) {
    exists m :: m in modules && Known(m.methods, Matcher(file), line)
  }

  /** Setting a new breakpoint on a line that some module knows, whatever the order in which the
      modules are searched: it is bound to a point of that line, in the first module that knows it,
      and a stop there finds it exactly when its condition, if any, is true and its file is the name
      that the document is looked up by. */
  lemma SetThenHit(events: seq<Event>, file: string, reqs: seq<Request>, line: int, order: seq<ModuleInfo>,
                   holds: string -> bool)
    returns (i: nat, p: Point)
    requires IsSession(events) && Reorders(order, RunSession(events).modules)
    requires Requests(reqs, line) && line != 0 && line != HIDDEN
    requires line !in Table(RunSession(events).engine, file)
    requires LineKnownTo(RunSession(events).modules, file, line)
    ensures i < |order| && Known(order[i].methods, Matcher(file), line)
    ensures forall j | 0 <= j < i :: !Known(order[j].methods, Matcher(file), line)
    ensures var st := RunSession(events + [Set(file, reqs, true, order)]).engine;
      && file in st.lines && line in st.lines[file]
      && var r := st.lines[file][line];
      && BoundTo(r.detail, order[i]) && FileMatches(file, p.document) && r.condition == LastCondition(reqs, line)
      && Lookup(order[i].methods, r.detail.methodToken, r.detail.ilOffset) == Some(p) && p.startLine == line
      && (FindHit(st, p, r.detail.methodToken, r.detail.ilOffset, holds) == Some((file, line))
          <==> (r.condition != "" ==> holds(r.condition))
               && (file == p.document || (file == FileName(p.document) && p.document !in st.lines)))
  {
    var s, e := RunSession(events), Set(file, reqs, true, order);
    RunOne(events, e);
    RunFiled(events);
    SetNewLine(s, file, reqs, line, order);
    i := FirstToKnow(order, s.modules, file, line);
    LocationBinds(order[i], file, line, LineDetail(0, 0, 0, file, line, true, 0));
    var d := RunSession(events + [e]).engine.lines[file][line].detail;
    p := Lookup(order[i].methods, d.methodToken, d.ilOffset).value;
    BoundIsHit(events + [e], file, line, order[i], holds);
  }

  lemma FirstToKnow(order: seq<ModuleInfo>, modules: seq<ModuleInfo>, file: string, line: int) returns (i: nat)
    requires Reorders(order, modules) && (forall m <- modules :: WellFormedModule(m))
    requires line != 0 && line != HIDDEN && LineKnownTo(modules, file, line)
    ensures i < |order| && WellFormedModule(order[i]) && Known(order[i].methods, Matcher(file), line)
    ensures forall j | 0 <= j < i :: !Known(order[j].methods, Matcher(file), line)
    ensures LocationInModule(order[i], Matcher(file), line).Some?
    ensures LocationInAny(order, Matcher(file), line) == LocationInModule(order[i], Matcher(file), line)
  {
    SameModules(order, modules);
    var m :| m in modules && Known(m.methods, Matcher(file), line);
    var k :| 0 <= k < |order| && order[k] == m;
    i := FirstIn(order, file, line, k);
    assert order[i] in order;
    FirstKnows(order, file, line, i);
  }

  lemma FirstKnows(order: seq<ModuleInfo>, file: string, line: int, i: nat)
    requires (forall m <- order :: WellFormedModule(m)) && line != 0 && line != HIDDEN
    requires i < |order| && Known(order[i].methods, Matcher(file), line)
    requires forall j | 0 <= j < i :: !Known(order[j].methods, Matcher(file), line)
    ensures LocationInModule(order[i], Matcher(file), line).Some?
    ensures LocationInAny(order, Matcher(file), line) == LocationInModule(order[i], Matcher(file), line)
  {
    forall j | 0 <= j <= i
      ensures Gives(order[j], Matcher(file), line) <==> Known(order[j].methods, Matcher(file), line)
    {
      assert order[j] in order;
      ModuleGives(order[j], Matcher(file), line);
    }
    FirstGives(order, Matcher(file), line, i);
  }

  lemma {:induction false} FirstIn(order: seq<ModuleInfo>, file: string, line: int, k: nat) returns (i: nat)
    requires k < |order| && Known(order[k].methods, Matcher(file), line)
    ensures i <= k && Known(order[i].methods, Matcher(file), line)
    ensures forall j | 0 <= j < i :: !Known(order[j].methods, Matcher(file), line)
  {
    i := k;
    if j :| 0 <= j < k && Known(order[j].methods, Matcher(file), line) {
      i := FirstIn(order, file, line, j);
    }
  }

  /** Loading a module binds exactly the breakpoints that are not bound and whose line it knows, to
      points of theirs, and leaves the others as they are. */
  lemma LoadBinds(events: seq<Event>, m: ModuleInfo, resolveFunc: FuncResolver, file: string, line: int)
    requires IsSession(events) && WellFormedModule(m) && line != 0 && line != HIDDEN
    requires line in Table(RunSession(events).engine, file)
    ensures var before := Table(RunSession(events).engine, file)[line];
      var table := Table(RunSession(events + [Load(m, resolveFunc)]).engine, file);
      && line in table && table[line].id == before.id && table[line].condition == before.condition
      && if before.detail.modAddress == 0 && Known(m.methods, Matcher(file), line)
         then BoundTo(table[line].detail, m) && FileMatches(file, table[line].detail.fullname)
         else table[line] == before
  {
    RunOne(events, Load(m, resolveFunc));
    RunFiled(events);
    var before := Table(RunSession(events).engine, file)[line];
    assert Filed(file, before.detail, RunSession(events).modules) && before.detail.linenum == line;
    ModuleGives(m, Matcher(file), line);
    if before.detail.modAddress == 0 && Known(m.methods, Matcher(file), line) {
      LocationBinds(m, file, line, before.detail);
    }
  }

  // ---------------------------------------------------------------- the module of a found breakpoint

  /** The module gives this method and offset for the file and line. */
  predicate GivesAt(m: ModuleInfo, file: string, line: int, token: int, il: int) {
    match LocationInModule(m, Matcher(file), line)
    case None => false
    case Some(l) => l.token == token && l.ilOffset == il
  }

  /** Another module than the one at the address gives the same method and offset for the line of
      the stop, under a name that the document is looked up by. */
  ghost predicate Twin(m: ModuleInfo, address: nat, p: Point, token: int, il: int) {
    && m.address != address
    && (GivesAt(m, p.document, p.startLine, token, il) || GivesAt(m, FileName(p.document), p.startLine, token, il))
  }

  /** What a stop finds is bound to the module at the address. */
  predicate FoundAt(st: State, address: nat, p: Point, token: int, il: int, holds: string -> bool) {
    match FindHit(st, p, token, il, holds)
    case None => true
    case Some((file, line)) => st.lines[file][line].detail.modAddress == address
  }

  /** In every session with these modules. */
  ghost predicate AlwaysAt(modules: seq<ModuleInfo>, address: nat, p: Point, token: int, il: int) {
    forall events, holds :: AtIfSession(events, modules, address, p, token, il, holds)
  }

  ghost predicate AtIfSession(events: seq<Event>, modules: seq<ModuleInfo>, address: nat, p: Point, token: int, il: int,
                              holds: string -> bool) {
    IsSession(events) && RunSession(events).modules == modules ==>
      FoundAt(RunSession(events).engine, address, p, token, il, holds)
  }

  lemma NoTwinFound(events: seq<Event>, address: nat, p: Point, token: int, il: int, holds: string -> bool)
    requires IsSession(events) && token != 0
    requires NoTwins(RunSession(events).modules, address, p, token, il)
    ensures FoundAt(RunSession(events).engine, address, p, token, il, holds)
  {
    RunFiled(events);
    var s := RunSession(events);
    var found := FindHit(s.engine, p, token, il, holds);
    if found.Some? {
      var (file, line) := found.value;
      var d := s.engine.lines[file][line].detail;
      assert Filed(file, d, s.modules);
      var m :| m in s.modules && LocatedBy(d, file, m);
      assert GivesAt(m, file, p.startLine, token, il);
    }
  }

  function NoFuncs(): FuncResolver {
    (_, _) => []
  }

  function Loads(modules: seq<ModuleInfo>): (events: seq<Event>) {
    if modules == [] then [] else Loads(modules[..|modules| - 1]) + [Load(modules[|modules| - 1], NoFuncs())]
  }

  lemma {:induction false} LoadsAll(modules: seq<ModuleInfo>)
    requires forall m <- modules :: WellFormedModule(m)
    ensures IsSession(Loads(modules))
    ensures RunSession(Loads(modules)).modules == modules && RunSession(Loads(modules)).engine.lines == map[]
  {
    if modules != [] {
      var init, m := modules[..|modules| - 1], modules[|modules| - 1];
      LoadsAll(init);
      LoadNext(Loads(init), m, NoFuncs());
      assert init + [m] == modules;
    }
  }

  lemma LoadNext(events: seq<Event>, m: ModuleInfo, resolveFunc: FuncResolver)
    requires IsSession(events) && RunSession(events).engine.lines == map[] && WellFormedModule(m)
    ensures var after := events + [Load(m, resolveFunc)];
      && IsSession(after) && RunSession(after).engine.lines == map[]
      && RunSession(after).modules == RunSession(events).modules + [m]
  {
    RunOne(events, Load(m, resolveFunc));
    NoLinesLoaded(RunSession(events), m, resolveFunc);
  }

  lemma NoLinesLoaded(s: Session, m: ModuleInfo, resolveFunc: FuncResolver)
    requires s.engine.lines == map[]
    ensures Next(s, Load(m, resolveFunc)).engine.lines == map[]
  {
    assert Next(s, Load(m, resolveFunc)).engine.lines.Keys == {};
  }

  /** The modules with the one at `i` first. */
  function FirstOf(modules: seq<ModuleInfo>, i: nat): seq<ModuleInfo>
    requires i < |modules|
  {
    [modules[i]] + (modules[..i] + modules[i + 1..])
  }

  lemma FirstOfReorders(modules: seq<ModuleInfo>, i: nat)
    requires i < |modules|
    ensures Reorders(FirstOf(modules, i), modules)
  {
    assert modules == modules[..i] + ([modules[i]] + modules[i + 1..]);
  }

  /** The first module that is searched decides. */
  lemma FirstDecides(m: ModuleInfo, others: seq<ModuleInfo>, matches: string -> bool, line: int)
    requires LocationInModule(m, matches, line).Some?
    ensures LocationInAny([m] + others, matches, line) == LocationInModule(m, matches, line)
  {
    var all := [m] + others;
    assert all[..1] == [m] && [m][..0] == [];
    FoundStays(all, matches, line, 1);
  }

  /** A breakpoint set alone is the one that a stop finds at the place it is bound to. */
  lemma AloneFound(s: Session, file: string, p: Point, token: int, il: int, order: seq<ModuleInfo>,
                   holds: string -> bool)
    requires s.engine.lines == map[] && (file == p.document || file == FileName(p.document))
    requires LocationInAny(order, Matcher(file), p.startLine).Some?
    requires var l := LocationInAny(order, Matcher(file), p.startLine).value; l.token == token && l.ilOffset == il
    ensures var st := Next(s, Set(file, [Request(p.startLine, "")], true, order)).engine;
      && FindHit(st, p, token, il, holds) == Some((file, p.startLine))
      && st.lines[file][p.startLine].detail.modAddress == LocationInAny(order, Matcher(file), p.startLine).value.address
  {
    SetAlone(s, file, p.startLine, order);
    SetNewLine(s, file, [Request(p.startLine, "")], p.startLine, order);
  }

  /** With a twin among the modules: a session in which the stop finds a breakpoint of the twin. */
  lemma TwinFound(modules: seq<ModuleInfo>, i: nat, address: nat, p: Point, token: int, il: int, holds: string -> bool)
    returns (events: seq<Event>)
    requires (forall m <- modules :: WellFormedModule(m)) && i < |modules| && Twin(modules[i], address, p, token, il)
    ensures IsSession(events) && RunSession(events).modules == modules
    ensures !FoundAt(RunSession(events).engine, address, p, token, il, holds)
  {
    var file := if GivesAt(modules[i], p.document, p.startLine, token, il) then p.document else FileName(p.document);
    LoadsAll(modules);
    events := SetFirst(Loads(modules), modules, i, file, p.startLine);
    FirstDecides(modules[i], modules[..i] + modules[i + 1..], Matcher(file), p.startLine);
    AloneFound(RunSession(Loads(modules)), file, p, token, il, FirstOf(modules, i), holds);
  }

  /** A setting that searches the module at `i` first. */
  lemma SetFirst(before: seq<Event>, modules: seq<ModuleInfo>, i: nat, file: string, line: int)
    returns (events: seq<Event>)
    requires IsSession(before) && RunSession(before).modules == modules && i < |modules|
    ensures IsSession(events) && RunSession(events).modules == modules
    ensures RunSession(events) == Next(RunSession(before), Set(file, [Request(line, "")], true, FirstOf(modules, i)))
  {
    var e := Set(file, [Request(line, "")], true, FirstOf(modules, i));
    FirstOfReorders(modules, i);
    RunOne(before, e);
    events := before + [e];
  }

  /** No module has a twin of the stop. */
  ghost predicate NoTwins(modules: seq<ModuleInfo>, address: nat, p: Point, token: int, il: int) {
    forall i | 0 <= i < |modules| :: !Twin(modules[i], address, p, token, il)
  }

  lemma TwinNotAlways(modules: seq<ModuleInfo>, i: nat, address: nat, p: Point, token: int, il: int)
    requires (forall m <- modules :: WellFormedModule(m)) && i < |modules| && Twin(modules[i], address, p, token, il)
    ensures !AlwaysAt(modules, address, p, token, il)
  {
    var holds: string -> bool := _ => true;
    var events := TwinFound(modules, i, address, p, token, il, holds);
    assert !AtIfSession(events, modules, address, p, token, il, holds);
  }

  /** What a stop finds is bound to the module that it stops in, in every session with these
      modules, exactly when no other module has a twin of the stop: the module of the stop is
      never compared. */
  lemma FoundHereExact(modules: seq<ModuleInfo>, address: nat, p: Point, token: int, il: int)
    requires (forall m <- modules :: WellFormedModule(m)) && token != 0
    ensures AlwaysAt(modules, address, p, token, il) <==> NoTwins(modules, address, p, token, il)
  {
    if NoTwins(modules, address, p, token, il) {
      forall events, holds ensures AtIfSession(events, modules, address, p, token, il, holds) {
        if IsSession(events) && RunSession(events).modules == modules {
          NoTwinFound(events, address, p, token, il, holds);
        }
      }
    } else {
      var i :| 0 <= i < |modules| && Twin(modules[i], address, p, token, il);
      TwinNotAlways(modules, i, address, p, token, il);
    }
  }

  /** Two modules with the same method: the stop in the second finds the breakpoint that is bound
      to the first. */
  lemma FoundElsewhere(p: Point, holds: string -> bool) returns (events: seq<Event>)
    requires p.startLine != 0 && p.startLine != HIDDEN
    ensures var here, there := OnePoint(p).(address := 2), OnePoint(p);
      && IsSession(events) && RunSession(events).modules == [there, here]
      && Lookup(here.methods, 1, p.offset) == Some(p)
      && !FoundAt(RunSession(events).engine, here.address, p, 1, p.offset, holds)
  {
    var here, there := OnePoint(p).(address := 2), OnePoint(p);
    LineKnown(p.document, p);
    FirstDecides(there, [], Matcher(p.document), p.startLine);
    assert [there] + [] == [there];
    events := TwinFound([there, here], 0, here.address, p, 1, p.offset, holds);
  }

  // ---------------------------------------------------------------- a breakpoint that is not found

  /** A module with one method, which has one point. */
  function OnePoint(p: Point): ModuleInfo {
    ModuleInfo(1, [MethodInfo(1, [p])])
  }

  lemma LineKnown(file: string, p: Point)
    requires FileMatches(file, p.document) && p.startLine != 0 && p.startLine != HIDDEN
    ensures LocationInAny([OnePoint(p)], Matcher(file), p.startLine).Some?
    ensures Known(OnePoint(p).methods, Matcher(file), p.startLine)
  {
    var m, matches := OnePoint(p), Matcher(file);
    assert Candidate(m.methods[0].points[0], matches, p.startLine);
    ResolvedIffKnown(m.methods, matches, p.startLine);
    ResolveThenLookup(m.methods, matches, p.startLine);
    assert [m][..0] == [];
  }

  lemma RunOne(events: seq<Event>, e: Event)
    ensures RunSession(events + [e]) == Next(RunSession(events), e)
    ensures IsSession(events) && Possible(RunSession(events), e) ==> IsSession(events + [e])
  {
    assert (events + [e])[..|events|] == events;
  }

  lemma Loaded(m: ModuleInfo, resolveFunc: FuncResolver)
    requires WellFormedModule(m)
    ensures var s := RunSession([Load(m, resolveFunc)]);
      s.modules == [m] && s.engine.lines == map[] && IsSession([Load(m, resolveFunc)])
  {
    RunOne([], Load(m, resolveFunc));
    assert [] + [Load(m, resolveFunc)] == [Load(m, resolveFunc)];
    assert Session0().modules + [m] == [m];
  }

  lemma NoFileFits(st: State, file: string, p: Point, token: int, il: int, holds: string -> bool)
    requires st.lines.Keys == {file} && file != p.document && file != FileName(p.document)
    ensures FindHit(st, p, token, il, holds) == None
  {
  }

  lemma SetAlone(s: Session, file: string, line: int, order: seq<ModuleInfo>)
    requires s.engine.lines == map[]
    ensures var reqs := [Request(line, "")];
      && Requests(reqs, line) && LastCondition(reqs, line) == ""
      && Next(s, Set(file, reqs, true, order)).engine.lines.Keys == {file}
  {
    assert [Request(line, "")][0].line == line;
  }

  lemma FirstBound(load: seq<Event>, file: string, p: Point, holds: string -> bool)
    requires IsSession(load) && RunSession(load).modules == [OnePoint(p)] && RunSession(load).engine.lines == map[]
    requires FileMatches(file, p.document) && p.startLine != 0 && p.startLine != HIDDEN
    ensures var st := RunSession(load + [Set(file, [Request(p.startLine, "")], true, [OnePoint(p)])]).engine;
      file in st.lines && p.startLine in st.lines[file] && BoundTo(st.lines[file][p.startLine].detail, OnePoint(p))
  {
    LineKnown(file, p);
    SetAlone(RunSession(load), file, p.startLine, [OnePoint(p)]);
    var i, q := SetThenHit(load, file, [Request(p.startLine, "")], p.startLine, [OnePoint(p)], holds);
  }

  lemma FirstSet(load: seq<Event>, file: string, p: Point, holds: string -> bool)
    requires IsSession(load) && RunSession(load).modules == [OnePoint(p)] && RunSession(load).engine.lines == map[]
    requires FileMatches(file, p.document) && file != p.document && file != FileName(p.document)
    requires p.startLine != 0 && p.startLine != HIDDEN
    ensures var m := OnePoint(p);
      var events := load + [Set(file, [Request(p.startLine, "")], true, [m])];
      var st := RunSession(events).engine;
      && IsSession(events)
      && file in st.lines && p.startLine in st.lines[file] && BoundTo(st.lines[file][p.startLine].detail, m)
      && FindHit(st, p, 1, p.offset, holds) == None
  {
    RunOne(load, Set(file, [Request(p.startLine, "")], true, [OnePoint(p)]));
    SetAlone(RunSession(load), file, p.startLine, [OnePoint(p)]);
    NoFileFits(RunSession(load + [Set(file, [Request(p.startLine, "")], true, [OnePoint(p)])]).engine,
               file, p, 1, p.offset, holds);
    FirstBound(load, file, p, holds);
  }

  /** A name that matches the document but is neither the document nor its bare file name: a
      breakpoint set under it is bound to the document's point, and a stop there does not find it. */
  lemma BoundAndNotFound(file: string, p: Point, resolveFunc: FuncResolver, holds: string -> bool)
    requires FileMatches(file, p.document) && file != p.document && file != FileName(p.document)
    requires p.startLine != 0 && p.startLine != HIDDEN
    ensures var m := OnePoint(p);
      var events := [Load(m, resolveFunc)] + [Set(file, [Request(p.startLine, "")], true, [m])];
      var st := RunSession(events).engine;
      && IsSession(events)
      && file in st.lines && p.startLine in st.lines[file] && BoundTo(st.lines[file][p.startLine].detail, m)
      && FindHit(st, p, 1, p.offset, holds) == None
  {
    Loaded(OnePoint(p), resolveFunc);
    FirstSet([Load(OnePoint(p), resolveFunc)], file, p, holds);
  }

  /** Names that differ in case are such names. */
  lemma NamesInCase()
    ensures FileMatches("A", "a") && FileName("a") == "a" && "a" != "A"
  {
    assert UpperChar('a') == 'A' && UpperChar('A') == 'A';
    assert Upper("a") == Upper("A") && "a"[0] != "A"[0];
    BareName("a");
    BareName("A");
  }

  lemma BareName(s: string)
    requires |s| == 1 && s[0] != '/' && s[0] != '\\'
    ensures FileName(s) == s
  {
    assert s[..0] == [];
  }
}
