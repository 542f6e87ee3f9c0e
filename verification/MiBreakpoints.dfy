/**
 The MI layer above the engine keeps its own table of line breakpoints, by file and id, and
 sends the engine the whole list of a file on every command.  Over runs of inserts and
 condition changes the two tables agree; a delete leaves the MI table as it is.
 */
module MiBreakpoints {
  import opened Tables
  import opened Engine

  type Entries = map<nat, Request>

  datatype Mi = Mi(lines: map<string, Entries>, engine: State)

  function EntriesOf(st: Mi, file: string): Entries {
    if file in st.lines then st.lines[file] else map[]
  }

  function Lines(m: Entries): set<int> {
    set id | id in m :: m[id].line
  }

  // ---------------------------------------------------------------- the commands

  function FirstAt(out: seq<Breakpoint>, line: int): (i: nat)
    requires exists i :: 0 <= i < |out| && out[i].line == line
    ensures i < |out| && out[i].line == line && forall j | 0 <= j < i :: out[j].line != line
  {
    if out[0].line == line then 0 else
      assert exists i :: 0 <= i < |out[1..]| && out[1..][i].line == line by {
        var i :| 0 <= i < |out| && out[i].line == line;
        assert out[1..][i - 1].line == line;
      }
      1 + FirstAt(out[1..], line)
  }

  /** The MI entries after the engine has answered an insert. */
  function Recorded(m: Entries, out: seq<Breakpoint>, line: int): Entries
    requires exists i :: 0 <= i < |out| && out[i].line == line
  {
    var b := out[FirstAt(out, line)];
    if b.id in m then m else m[b.id := Request(b.line, b.condition)]
  }

  function InsertRequests(m: Entries, order: seq<nat>, line: int, condition: string): seq<Request>
    requires forall id <- order :: id in m
  {
    Gathered(m, order) + [Request(line, condition)]
  }

  ghost predicate InsertStep(st: Mi, file: string, line: int, condition: string, resolve: Resolver, r: Mi) {
    exists order | Lists(order, EntriesOf(st, file).Keys) :: Inserted(st, file, line, condition, resolve, order, r)
  }

  ghost predicate Inserted(st: Mi, file: string, line: int, condition: string, resolve: Resolver, order: seq<nat>,
                           r: Mi)
    requires Lists(order, EntriesOf(st, file).Keys)
  {
    var m := EntriesOf(st, file);
    var reqs := InsertRequests(m, order, line, condition);
    var out := ToBreakpoints(Replaced(st.engine, file, reqs, resolve).out);
    && (exists i :: 0 <= i < |out| && out[i].line == line)
    && r == Mi(st.lines[file := Recorded(m, out, line)], Apply(st.engine, SetLines(file, reqs, resolve)))
  }

  function Changed(m: Entries, id: nat, condition: string): Entries
    requires id in m
  {
    m[id := m[id].(condition := condition)]
  }

  ghost predicate ConditionStep(st: Mi, id: nat, condition: string, resolve: Resolver, r: Mi) {
    if forall f | f in st.lines :: id !in st.lines[f] then r == st
    else exists file, order | file in st.lines && id in st.lines[file] && Lists(order, st.lines[file].Keys) ::
      ConditionChanged(st, file, id, condition, resolve, order, r)
  }

  ghost predicate ConditionChanged(st: Mi, file: string, id: nat, condition: string, resolve: Resolver,
                                   order: seq<nat>, r: Mi)
    requires file in st.lines && id in st.lines[file] && Lists(order, st.lines[file].Keys)
  {
    var m := Changed(st.lines[file], id, condition);
    r == Mi(st.lines[file := m], Apply(st.engine, SetLines(file, Gathered(m, order), resolve)))
  }

  /** One file of a delete: the engine gets the remaining entries, if any entry goes. */
  ghost predicate FileDeletesTo(m: Entries, e: State, file: string, ids: set<nat>, resolve: Resolver, r: State) {
    if m.Keys !! ids then r == e
    else exists order | Lists(order, m.Keys - ids) :: r == Apply(e, SetLines(file, Gathered(m, order), resolve))
  }

  ghost predicate DeletesTo(lines: map<string, Entries>, e: State, files: seq<string>, ids: set<nat>,
                            resolve: Resolver, r: State)
    requires forall f <- files :: f in lines
  {
    if files == [] then r == e
    else
      var n := |files| - 1;
      exists mid :: DeletesTo(lines, e, files[..n], ids, resolve, mid)
                    && FileDeletesTo(lines[files[n]], mid, files[n], ids, resolve, r)
  }

  /** A delete changes the engine only: the MI table keeps the deleted ids. */
  ghost predicate DeleteStep(st: Mi, ids: set<nat>, resolve: Resolver, r: Mi) {
    && r.lines == st.lines
    && exists files | Lists(files, st.lines.Keys) :: DeletesTo(st.lines, st.engine, files, ids, resolve, r.engine)
  }

  // ---------------------------------------------------------------- facts about requests

  lemma GatheredRequests(m: Entries, order: seq<nat>, tail: seq<Request>, line: int)
    requires Lists(order, m.Keys)
    ensures Requests(Gathered(m, order) + tail, line) <==> line in Lines(m) || Requests(tail, line)
  {
    var reqs := Gathered(m, order) + tail;
    if line in Lines(m) {
      var id :| id in m && m[id].line == line;
      var i :| 0 <= i < |order| && order[i] == id;
      assert reqs[i].line == line;
    }
    if Requests(tail, line) {
      var i :| 0 <= i < |tail| && tail[i].line == line;
      assert reqs[|order| + i].line == line;
    }
    if Requests(reqs, line) {
      var i :| 0 <= i < |reqs| && reqs[i].line == line;
      if i < |order| { assert order[i] in m; } else { assert tail[i - |order|].line == line; }
    }
  }

  /** No two entries are for the same line. */
  ghost predicate OneEach(m: Entries) {
    forall i, j | i in m && j in m && m[i].line == m[j].line :: i == j
  }

  lemma GatheredCondition(m: Entries, order: seq<nat>, tail: seq<Request>, id: nat)
    requires Lists(order, m.Keys) && OneEach(m) && id in m && !Requests(tail, m[id].line)
    ensures Requests(Gathered(m, order) + tail, m[id].line)
    ensures LastCondition(Gathered(m, order) + tail, m[id].line) == m[id].condition
  {
    var reqs, line := Gathered(m, order) + tail, m[id].line;
    var i :| 0 <= i < |order| && order[i] == id;
    assert reqs[i].line == line;
    forall j | i < j < |reqs| ensures reqs[j].line != line {
      if j < |order| {
        assert order[j] in m && order[j] != id;
      } else {
        assert reqs[j] == tail[j - |order|];
      }
    }
    LastConditionIs(reqs, line, i);
  }

  // ---------------------------------------------------------------- agreement

  /** The MI entries of a file and its engine table describe the same breakpoints. */
  ghost predicate Agree(m: Entries, t: LineTable) {
    Paired(m, t) && forall id | id in m :: t[m[id].line].condition == m[id].condition
  }

  /** They have the same ids on the same lines. */
  ghost predicate Paired(m: Entries, t: LineTable) {
    && (forall id | id in m :: m[id].line in t && t[m[id].line].id == id)
    && (forall l | l in t :: t[l].id in m && m[t[l].id].line == l)
  }

  ghost predicate AllAgree(st: Mi) {
    forall f :: Agree(EntriesOf(st, f), Table(st.engine, f))
  }

  /** What the engine makes of a non-empty list of requests for a file with table `t`. */
  ghost predicate Sent(t: LineTable, next: nat, reqs: seq<Request>, after: LineTable) {
    && (forall l :: l in after <==> Requests(reqs, l))
    && (forall l | l in after :: after[l].condition == LastCondition(reqs, l))
    && (forall l | l in after && l in t :: after[l].id == t[l].id && after[l].detail == t[l].detail)
    && (forall l | l in after && l !in t :: after[l].id >= next)
  }

  lemma Sending(e: State, file: string, reqs: seq<Request>, resolve: Resolver)
    requires Valid(e) && reqs != []
    ensures var r := Apply(e, SetLines(file, reqs, resolve));
      && Valid(r) && e.next <= r.next
      && Sent(Table(e, file), e.next, reqs, Table(r, file)) && IdsBelow(Table(r, file), r.next)
      && Answered(reqs, Table(r, file), ToBreakpoints(Replaced(e, file, reqs, resolve).out))
      && r.funcs == e.funcs && r.exceptions == e.exceptions
      && (forall l | l in Table(r, file) && l !in Table(e, file) ::
            Table(r, file)[l].detail == NewLine(file, l, resolve))
      && forall f | f != file :: Table(r, f) == Table(e, f)
  {
    SetLinesReplaces(e, file, reqs, resolve);
    SetLinesKeeps(e, file, reqs, resolve);
    FileDistinct(Apply(e, SetLines(file, reqs, resolve)), file);
  }

  /** Replacing one file's entries and table keeps the agreement of the others. */
  lemma OthersAgree(st: Mi, file: string, m: Entries, e: State)
    requires AllAgree(st) && Agree(m, Table(e, file))
    requires forall f | f != file :: Table(e, f) == Table(st.engine, f)
    ensures AllAgree(Mi(st.lines[file := m], e))
  {
    var r := Mi(st.lines[file := m], e);
    forall f ensures Agree(EntriesOf(r, f), Table(e, f)) {
      if f != file { assert Agree(EntriesOf(st, f), Table(st.engine, f)); }
    }
  }

  /** Sending all entries of a file makes its conditions agree. */
  lemma SentAgrees(m: Entries, order: seq<nat>, t: LineTable, next: nat, after: LineTable)
    requires Lists(order, m.Keys) && Paired(m, t) && Sent(t, next, Gathered(m, order) + [], after)
    ensures Agree(m, after)
  {
    forall l ensures l in after <==> l in Lines(m) { GatheredRequests(m, order, [], l); }
    forall id | id in m
      ensures m[id].line in after && after[m[id].line].id == id && after[m[id].line].condition == m[id].condition
    {
      GatheredCondition(m, order, [], id);
    }
    forall l | l in after ensures after[l].id in m && m[after[l].id].line == l {
      assert l in t;
    }
  }

  /** Sending all entries and one on a free line, and recording its answer. */
  lemma SentInsertAgrees(m: Entries, order: seq<nat>, t: LineTable, next: nat, line: int, condition: string,
                         after: LineTable)
    requires Lists(order, m.Keys) && Agree(m, t) && line !in Lines(m)
    requires Sent(t, next, InsertRequests(m, order, line, condition), after)
    requires line in after && after[line].id !in m
    ensures Agree(m[after[line].id := Request(line, condition)], after)
  {
    var last := Request(line, condition);
    forall id | id in m
      ensures m[id].line in after && after[m[id].line].id == id && after[m[id].line].condition == m[id].condition
    {
      assert m[id].line in Lines(m);
      GatheredCondition(m, order, [last], id);
    }
    forall l | l in after && l != line ensures after[l].id in m && m[after[l].id].line == l {
      GatheredRequests(m, order, [last], l);
      assert l in t;
    }
  }

  /** What the engine makes of an insert, and what it answers for the line. */
  ghost predicate InsertSent(st: Mi, file: string, line: int, condition: string, resolve: Resolver, order: seq<nat>,
                             out: seq<Breakpoint>, r: Mi)
    requires Lists(order, EntriesOf(st, file).Keys)
  {
    var m, t, after := EntriesOf(st, file), Table(st.engine, file), Table(r.engine, file);
    var reqs := InsertRequests(m, order, line, condition);
    && st.engine.next <= r.engine.next
    && Sent(t, st.engine.next, reqs, after) && IdsBelow(t, st.engine.next) && IdsBelow(after, r.engine.next)
    && Answered(reqs, after, out) && (exists i :: 0 <= i < |out| && out[i].line == line)
    && r.lines == st.lines[file := Recorded(m, out, line)]
    && (forall l | l in after && l !in t :: after[l].detail == NewLine(file, l, resolve))
    && r.engine.funcs == st.engine.funcs && r.engine.exceptions == st.engine.exceptions
    && forall f | f != file :: Table(r.engine, f) == Table(st.engine, f)
  }

  lemma InsertSends(st: Mi, file: string, line: int, condition: string, resolve: Resolver, order: seq<nat>, r: Mi)
    returns (out: seq<Breakpoint>)
    requires Valid(st.engine) && Lists(order, EntriesOf(st, file).Keys)
    requires Inserted(st, file, line, condition, resolve, order, r)
    ensures InsertSent(st, file, line, condition, resolve, order, out, r)
  {
    var reqs := InsertRequests(EntriesOf(st, file), order, line, condition);
    out := ToBreakpoints(Replaced(st.engine, file, reqs, resolve).out);
    Sending(st.engine, file, reqs, resolve);
    FileDistinct(st.engine, file);
  }

  lemma SentInsertRecorded(m: Entries, order: seq<nat>, t: LineTable, next: nat, line: int, condition: string,
                           after: LineTable, out: seq<Breakpoint>)
    requires Lists(order, m.Keys) && Agree(m, t) && IdsBelow(t, next) && line !in Lines(m)
    requires Sent(t, next, InsertRequests(m, order, line, condition), after)
    requires Answered(InsertRequests(m, order, line, condition), after, out)
    requires exists i :: 0 <= i < |out| && out[i].line == line
    ensures Agree(Recorded(m, out, line), after)
  {
    var n := |order|;
    assert InsertRequests(m, order, line, condition)[n] == Request(line, condition);
    assert FirstAt(out, line) == n by {
      forall i | 0 <= i < n ensures out[i].line != line { assert order[i] in m; }
    }
    SentInsertAgrees(m, order, t, next, line, condition, after);
  }

  lemma InsertAgrees(st: Mi, file: string, line: int, condition: string, resolve: Resolver, order: seq<nat>,
                     out: seq<Breakpoint>, r: Mi)
    requires AllAgree(st) && line !in Lines(EntriesOf(st, file))
    requires Lists(order, EntriesOf(st, file).Keys) && InsertSent(st, file, line, condition, resolve, order, out, r)
    ensures AllAgree(r)
  {
    var m := EntriesOf(st, file);
    SentInsertRecorded(m, order, Table(st.engine, file), st.engine.next, line, condition, Table(r.engine, file), out);
    OthersAgree(st, file, Recorded(m, out, line), r.engine);
  }

  /** On a taken line the tables agree afterwards exactly when the condition is the recorded one. */
  lemma TakenAgrees(m: Entries, order: seq<nat>, t: LineTable, next: nat, line: int, condition: string,
                    after: LineTable)
    requires Lists(order, m.Keys) && Agree(m, t) && line in Lines(m)
    requires Sent(t, next, InsertRequests(m, order, line, condition), after)
    ensures Agree(m, after) <==> forall id | id in m && m[id].line == line :: m[id].condition == condition
  {
    var last := Request(line, condition);
    forall l ensures l in after <==> l in Lines(m) { GatheredRequests(m, order, [last], l); }
    forall id | id in m && m[id].line != line ensures after[m[id].line].condition == m[id].condition {
      GatheredCondition(m, order, [last], id);
    }
    forall l | l in after ensures l in t && after[l].id == t[l].id {
      var id :| id in m && m[id].line == l;
    }
    assert Paired(m, after);
    assert after[line].condition == condition;
  }

  /** After an insert the layers agree exactly when the line was free or had the condition
      already: on a taken line the MI table keeps the old condition. */
  lemma InsertAgreesExact(st: Mi, file: string, line: int, condition: string, resolve: Resolver, order: seq<nat>, r: Mi)
    requires Valid(st.engine) && AllAgree(st)
    requires Lists(order, EntriesOf(st, file).Keys) && Inserted(st, file, line, condition, resolve, order, r)
    ensures AllAgree(r) <==> Repeats(EntriesOf(st, file), line, condition)
  {
    var out := InsertSends(st, file, line, condition, resolve, order, r);
    if line !in Lines(EntriesOf(st, file)) {
      InsertAgrees(st, file, line, condition, resolve, order, out, r);
      assert forall id | id in EntriesOf(st, file) :: EntriesOf(st, file)[id].line in Lines(EntriesOf(st, file));
    } else {
      TakenExact(st, file, line, condition, resolve, order, out, r);
    }
  }

  lemma TakenExact(st: Mi, file: string, line: int, condition: string, resolve: Resolver, order: seq<nat>,
                   out: seq<Breakpoint>, r: Mi)
    requires AllAgree(st) && line in Lines(EntriesOf(st, file))
    requires Lists(order, EntriesOf(st, file).Keys) && InsertSent(st, file, line, condition, resolve, order, out, r)
    ensures AllAgree(r) <==> Repeats(EntriesOf(st, file), line, condition)
  {
    var m, after := EntriesOf(st, file), Table(r.engine, file);
    TakenAgrees(m, order, Table(st.engine, file), st.engine.next, line, condition, after);
    TakenKept(m, order, Table(st.engine, file), st.engine.next, line, condition, after, out);
    assert EntriesOf(r, file) == m;
    if Agree(m, after) { OthersAgree(st, file, m, r.engine); }
  }

  lemma TakenKept(m: Entries, order: seq<nat>, t: LineTable, next: nat, line: int, condition: string,
                  after: LineTable, out: seq<Breakpoint>)
    requires Lists(order, m.Keys) && Agree(m, t) && line in Lines(m)
    requires Sent(t, next, InsertRequests(m, order, line, condition), after)
    requires Answered(InsertRequests(m, order, line, condition), after, out)
    requires exists i :: 0 <= i < |out| && out[i].line == line
    ensures Recorded(m, out, line) == m
  {
    var i := FirstAt(out, line);
    assert InsertRequests(m, order, line, condition)[i].line == line;
    var id :| id in m && m[id].line == line;
  }

  /** Every entry for the line has the condition. */
  ghost predicate Repeats(m: Entries, line: int, condition: string) {
    forall id | id in m && m[id].line == line :: m[id].condition == condition
  }

  lemma ConditionSends(st: Mi, file: string, id: nat, condition: string, resolve: Resolver, order: seq<nat>, r: Mi)
    requires Valid(st.engine) && file in st.lines && id in st.lines[file] && Lists(order, st.lines[file].Keys)
    requires ConditionChanged(st, file, id, condition, resolve, order, r)
    ensures var m := Changed(st.lines[file], id, condition);
      && Sent(Table(st.engine, file), st.engine.next, Gathered(m, order) + [], Table(r.engine, file))
      && st.engine.next <= r.engine.next
      && r.engine.funcs == st.engine.funcs && r.engine.exceptions == st.engine.exceptions
      && forall f | f != file :: Table(r.engine, f) == Table(st.engine, f)
  {
    var reqs := Gathered(Changed(st.lines[file], id, condition), order);
    assert id in order && reqs == reqs + [];
    Sending(st.engine, file, reqs, resolve);
  }

  lemma ConditionAgrees(st: Mi, file: string, id: nat, condition: string, resolve: Resolver, order: seq<nat>, r: Mi)
    requires Valid(st.engine) && AllAgree(st)
    requires file in st.lines && id in st.lines[file] && Lists(order, st.lines[file].Keys)
    requires ConditionChanged(st, file, id, condition, resolve, order, r)
    ensures AllAgree(r)
  {
    var m := Changed(st.lines[file], id, condition);
    ConditionSends(st, file, id, condition, resolve, order, r);
    assert Paired(m, Table(st.engine, file)) by { assert Agree(EntriesOf(st, file), Table(st.engine, file)); }
    SentAgrees(m, order, Table(st.engine, file), st.engine.next, Table(r.engine, file));
    OthersAgree(st, file, m, r.engine);
  }

  /** Engine operations that the MI layer does not see: they touch no id, line or condition. */
  predicate Background(op: Op) {
    !op.SetLines? && !op.DeleteAll?
  }

  lemma BackgroundTables(e: State, op: Op, f: string)
    requires Background(op)
    ensures var t, t' := Table(e, f), Table(Apply(e, op), f);
      t'.Keys == t.Keys && forall l | l in t :: t'[l].id == t[l].id && t'[l].condition == t[l].condition
  {
  }

  // ---------------------------------------------------------------- deletes

  /** The engine's lines of every file are among those of the MI table, whose ids the
      counter has passed. */
  ghost predicate Within(st: Mi) {
    && (forall f :: Table(st.engine, f).Keys <= Lines(EntriesOf(st, f)))
    && (forall f, id | f in st.lines && id in st.lines[f] :: id < st.engine.next)
  }

  lemma OthersWithin(st: Mi, file: string, m: Entries, e: State)
    requires Within(st) && Table(e, file).Keys <= Lines(m) && st.engine.next <= e.next
    requires (forall f | f != file :: Table(e, f) == Table(st.engine, f)) && forall id | id in m :: id < e.next
    ensures Within(Mi(st.lines[file := m], e))
  {
    var r := Mi(st.lines[file := m], e);
    forall f ensures Table(e, f).Keys <= Lines(EntriesOf(r, f)) {
      if f != file { assert Table(st.engine, f).Keys <= Lines(EntriesOf(st, f)); }
    }
  }

  lemma SentInsertKeys(m: Entries, order: seq<nat>, t: LineTable, next: nat, line: int, condition: string,
                       after: LineTable)
    requires Lists(order, m.Keys) && Sent(t, next, InsertRequests(m, order, line, condition), after)
    ensures after.Keys == Lines(m) + {line}
  {
    var last := Request(line, condition);
    assert [last][0].line == line;
    forall l ensures l in after <==> l in Lines(m) + {line} {
      GatheredRequests(m, order, [last], l);
    }
  }

  lemma SentInsertLines(m: Entries, order: seq<nat>, t: LineTable, next: nat, line: int, condition: string,
                        after: LineTable, out: seq<Breakpoint>, nextAfter: nat)
    requires Lists(order, m.Keys) && t.Keys <= Lines(m) && forall id | id in m :: id < next
    requires Sent(t, next, InsertRequests(m, order, line, condition), after)
    requires Answered(InsertRequests(m, order, line, condition), after, out)
    requires next <= nextAfter && IdsBelow(after, nextAfter)
    ensures (exists i :: 0 <= i < |out| && out[i].line == line)
    ensures after.Keys == Lines(Recorded(m, out, line)) && forall id | id in Recorded(m, out, line) :: id < nextAfter
  {
    var reqs := InsertRequests(m, order, line, condition);
    assert reqs[|order|].line == line;
    assert out[|order|].line == line;
    var i := FirstAt(out, line);
    assert reqs[i].line == line && out[i].id == after[line].id;
    SentInsertKeys(m, order, t, next, line, condition, after);
    RecordedLines(m, out, line);
  }

  lemma KnownIds(st: Mi, file: string)
    requires Within(st)
    ensures forall id | id in EntriesOf(st, file) :: id < st.engine.next
    ensures Table(st.engine, file).Keys <= Lines(EntriesOf(st, file))
  {
  }

  lemma InsertWithin(st: Mi, file: string, line: int, condition: string, resolve: Resolver, order: seq<nat>, r: Mi)
    requires Valid(st.engine) && Within(st)
    requires Lists(order, EntriesOf(st, file).Keys) && Inserted(st, file, line, condition, resolve, order, r)
    ensures Within(r) && Table(r.engine, file).Keys == Lines(EntriesOf(r, file))
  {
    var m := EntriesOf(st, file);
    var out := InsertSends(st, file, line, condition, resolve, order, r);
    KnownIds(st, file);
    SentInsertLines(m, order, Table(st.engine, file), st.engine.next, line, condition, Table(r.engine, file), out,
                    r.engine.next);
    OthersWithin(st, file, Recorded(m, out, line), r.engine);
  }

  lemma RecordedLines(m: Entries, out: seq<Breakpoint>, line: int)
    requires exists i :: 0 <= i < |out| && out[i].line == line
    ensures var b := out[FirstAt(out, line)];
      Lines(Recorded(m, out, line)) == if b.id in m then Lines(m) else Lines(m) + {line}
  {
    var b := out[FirstAt(out, line)];
    var m' := Recorded(m, out, line);
    if b.id !in m {
      forall l ensures l in Lines(m') <==> l in Lines(m) + {line} {
        if l in Lines(m) {
          var id :| id in m && m[id].line == l;
          assert id in m' && m'[id].line == l;
        }
        assert m'[b.id].line == line;
      }
    }
  }

  lemma SentLines(m: Entries, order: seq<nat>, t: LineTable, next: nat, after: LineTable)
    requires Lists(order, m.Keys) && Sent(t, next, Gathered(m, order) + [], after)
    ensures after.Keys == Lines(m)
  {
    forall l ensures l in after <==> l in Lines(m) { GatheredRequests(m, order, [], l); }
  }

  lemma ConditionWithin(st: Mi, file: string, id: nat, condition: string, resolve: Resolver, order: seq<nat>, r: Mi)
    requires Valid(st.engine) && Within(st)
    requires file in st.lines && id in st.lines[file] && Lists(order, st.lines[file].Keys)
    requires ConditionChanged(st, file, id, condition, resolve, order, r)
    ensures Within(r) && Table(r.engine, file).Keys == Lines(EntriesOf(r, file))
  {
    var m := Changed(st.lines[file], id, condition);
    ConditionSends(st, file, id, condition, resolve, order, r);
    SentLines(m, order, Table(st.engine, file), st.engine.next, Table(r.engine, file));
    ChangedLines(st.lines[file], id, condition);
    OthersWithin(st, file, m, r.engine);
  }

  lemma ChangedLines(m: Entries, id: nat, condition: string)
    requires id in m
    ensures Lines(Changed(m, id, condition)) == Lines(m)
  {
    var c := Changed(m, id, condition);
    forall l | l in Lines(m) ensures l in Lines(c) {
      var i :| i in m && m[i].line == l;
      assert c[i].line == l;
    }
  }

  function Remaining(m: Entries, ids: set<nat>): Entries {
    m - ids
  }

  /** What a delete does to one file: a file with a deleted entry gets exactly the lines of
      its other entries, whether the engine still had them or not. */
  lemma FileDeleted(m: Entries, e: State, file: string, ids: set<nat>, resolve: Resolver, r: State)
    requires Valid(e) && FileDeletesTo(m, e, file, ids, resolve, r)
    ensures Valid(r) && e.next <= r.next
    ensures m.Keys !! ids ==> r == e
    ensures FileDone(m, Table(e, file), ids, Table(r, file))
    ensures r.funcs == e.funcs && r.exceptions == e.exceptions
    ensures forall f | f != file :: Table(r, f) == Table(e, f)
  {
    if m.Keys !! ids {
      if Agree(m, Table(e, file)) { NoneGone(m, Table(e, file), ids); }
    } else {
      var order :| Lists(order, m.Keys - ids) && r == Apply(e, SetLines(file, Gathered(m, order), resolve));
      var rest := Remaining(m, ids);
      var reqs := Gathered(rest, order);
      assert Gathered(m, order) == reqs && reqs == reqs + [];
      if order == [] {
        SetLinesKeeps(e, file, reqs, resolve);
      } else {
        Sending(e, file, reqs, resolve);
        SentLines(rest, order, Table(e, file), e.next, Table(r, file));
      }
      if Agree(m, Table(e, file)) { RestKept(m, order, Table(e, file), ids, reqs, e.next, Table(r, file)); }
    }
  }

  /** The records with other ids. */
  function Without(t: LineTable, ids: set<nat>): LineTable {
    map l | l in t && t[l].id !in ids :: t[l]
  }

  ghost predicate FileDone(m: Entries, before: LineTable, ids: set<nat>, after: LineTable) {
    && (if m.Keys !! ids then after == before else after.Keys == Lines(Remaining(m, ids)))
    && (Agree(m, before) ==> after == Without(before, ids))
  }

  lemma NoneGone(m: Entries, t: LineTable, ids: set<nat>)
    requires Agree(m, t) && m.Keys !! ids
    ensures Without(t, ids) == t
  {
    assert forall l | l in t :: t[l].id in m.Keys;
  }

  /** From agreeing tables, sending the other entries leaves exactly their records, unchanged. */
  lemma RestKept(m: Entries, order: seq<nat>, t: LineTable, ids: set<nat>, reqs: seq<Request>, next: nat,
                 after: LineTable)
    requires Agree(m, t) && Lists(order, m.Keys - ids) && reqs == Gathered(Remaining(m, ids), order)
    requires after.Keys == Lines(Remaining(m, ids)) && (reqs == [] || Sent(t, next, reqs, after))
    ensures after == Without(t, ids)
  {
    var rest := Remaining(m, ids);
    forall l ensures l in after <==> l in Without(t, ids) {
      if l in Lines(rest) { var id :| id in rest && rest[id].line == l; }
      if l in t && t[l].id !in ids { assert rest[t[l].id].line == l; }
    }
    forall l | l in after ensures after[l] == t[l] {
      var id :| id in rest && rest[id].line == l;
      assert reqs + [] == reqs && id in order;
      assert !Requests([], l);
      GatheredCondition(rest, order, [], id);
    }
  }

  lemma {:induction false} FilesDeleted(lines: map<string, Entries>, e: State, files: seq<string>, ids: set<nat>,
                                        resolve: Resolver, r: State)
    requires Valid(e) && (forall f <- files :: f in lines) && DeletesTo(lines, e, files, ids, resolve, r)
    requires forall i, j | 0 <= i < j < |files| :: files[i] != files[j]
    ensures Valid(r) && e.next <= r.next
    ensures forall i | 0 <= i < |files| :: FileDone(lines[files[i]], Table(e, files[i]), ids, Table(r, files[i]))
    ensures r.funcs == e.funcs && r.exceptions == e.exceptions
    ensures forall f | f !in files :: Table(r, f) == Table(e, f)
  {
    if files != [] {
      var n := |files| - 1;
      var init, last := files[..n], files[n];
      var mid :| DeletesTo(lines, e, init, ids, resolve, mid) && FileDeletesTo(lines[last], mid, last, ids, resolve, r);
      FilesDeleted(lines, e, init, ids, resolve, mid);
      FileDeleted(lines[last], mid, last, ids, resolve, r);
      assert forall i | 0 <= i < n :: init[i] == files[i];
      OneMoreDone(lines, e, mid, files, ids, r);
    }
  }

  lemma OneMoreDone(lines: map<string, Entries>, e: State, mid: State, files: seq<string>, ids: set<nat>, r: State)
    requires files != [] && (forall f <- files :: f in lines)
    requires forall i, j | 0 <= i < j < |files| :: files[i] != files[j]
    requires var n := |files| - 1;
      && (forall i | 0 <= i < n :: FileDone(lines[files[i]], Table(e, files[i]), ids, Table(mid, files[i])))
      && (forall f | f !in files[..n] :: Table(mid, f) == Table(e, f))
      && FileDone(lines[files[n]], Table(mid, files[n]), ids, Table(r, files[n]))
      && (forall f | f != files[n] :: Table(r, f) == Table(mid, f))
    ensures forall i | 0 <= i < |files| :: FileDone(lines[files[i]], Table(e, files[i]), ids, Table(r, files[i]))
    ensures forall f | f !in files :: Table(r, f) == Table(e, f)
  {
    var n := |files| - 1;
    assert files[n] !in files[..n];
    forall f | f !in files ensures Table(r, f) == Table(e, f) {
      assert f !in files[..n] && f != files[n] by { assert files == files[..n] + [files[n]]; }
    }
  }

  lemma KeptTwice(a: State, b: State, c: State)
    requires Kept(a, b) && Kept(b, c)
    ensures Kept(a, c)
  {
  }

  /** A delete gives no id away. */
  lemma {:induction false} DeletesKept(lines: map<string, Entries>, e: State, files: seq<string>, ids: set<nat>,
                                       resolve: Resolver, r: State)
    requires Valid(e) && (forall f <- files :: f in lines) && DeletesTo(lines, e, files, ids, resolve, r)
    ensures Kept(e, r)
  {
    if files != [] {
      var n := |files| - 1;
      var last := files[n];
      var mid :| DeletesTo(lines, e, files[..n], ids, resolve, mid)
        && FileDeletesTo(lines[last], mid, last, ids, resolve, r);
      DeletesKept(lines, e, files[..n], ids, resolve, mid);
      if r != mid {
        var order :| Lists(order, lines[last].Keys - ids)
          && r == Apply(mid, SetLines(last, Gathered(lines[last], order), resolve));
        SetLinesKeeps(mid, last, Gathered(lines[last], order), resolve);
        KeptTwice(e, mid, r);
      }
    }
  }

  /** A delete gives every file of the MI table exactly its remaining lines, or leaves it
      alone; the MI table keeps everything. */
  lemma DeleteExact(st: Mi, ids: set<nat>, resolve: Resolver, r: Mi)
    requires Valid(st.engine) && DeleteStep(st, ids, resolve, r)
    ensures r.lines == st.lines && Valid(r.engine) && st.engine.next <= r.engine.next
    ensures forall f :: EntriesOf(st, f).Keys !! ids ==> Table(r.engine, f) == Table(st.engine, f)
    ensures forall f :: !(EntriesOf(st, f).Keys !! ids) ==>
              Table(r.engine, f).Keys == Lines(Remaining(EntriesOf(st, f), ids))
    ensures r.engine.funcs == st.engine.funcs && r.engine.exceptions == st.engine.exceptions
  {
    FilesDone(st, ids, resolve, r);
  }

  lemma FilesDone(st: Mi, ids: set<nat>, resolve: Resolver, r: Mi)
    requires Valid(st.engine) && DeleteStep(st, ids, resolve, r)
    ensures Valid(r.engine) && st.engine.next <= r.engine.next
    ensures r.engine.funcs == st.engine.funcs && r.engine.exceptions == st.engine.exceptions
    ensures forall f | f in st.lines :: FileDone(st.lines[f], Table(st.engine, f), ids, Table(r.engine, f))
    ensures forall f | f !in st.lines :: Table(r.engine, f) == Table(st.engine, f)
  {
    var files :| Lists(files, st.lines.Keys) && DeletesTo(st.lines, st.engine, files, ids, resolve, r.engine);
    FilesDeleted(st.lines, st.engine, files, ids, resolve, r.engine);
    forall f | f in st.lines ensures FileDone(st.lines[f], Table(st.engine, f), ids, Table(r.engine, f)) {
      var i :| 0 <= i < |files| && files[i] == f;
    }
  }

  /** From agreeing layers, a delete takes exactly the records with these ids out of the engine, and
      changes nothing else. */
  lemma DeleteRemoves(st: Mi, ids: set<nat>, resolve: Resolver, r: Mi)
    requires Valid(st.engine) && AllAgree(st) && DeleteStep(st, ids, resolve, r)
    ensures r.lines == st.lines && r.engine.funcs == st.engine.funcs && r.engine.exceptions == st.engine.exceptions
    ensures forall f :: var t := Table(st.engine, f);
              Table(r.engine, f) == map l | l in t && t[l].id !in ids :: t[l]
  {
    FilesDone(st, ids, resolve, r);
    forall f ensures Table(r.engine, f) == Without(Table(st.engine, f), ids) {
      assert Agree(EntriesOf(st, f), Table(st.engine, f));
      if f !in st.lines { NoneGone(EntriesOf(st, f), Table(st.engine, f), ids); }
    }
  }

  // ---------------------------------------------------------------- what the other commands do

  /** Nothing changes but what is filed under the file. */
  ghost predicate OnlyFile(st: Mi, r: Mi, file: string) {
    && (forall f | f != file :: EntriesOf(r, f) == EntriesOf(st, f) && Table(r.engine, f) == Table(st.engine, f))
    && r.engine.funcs == st.engine.funcs && r.engine.exceptions == st.engine.exceptions
  }

  /** A table after sending requests that leave all its lines and conditions but for one line. */
  lemma OneChanged(t: LineTable, next: nat, reqs: seq<Request>, line: int, condition: string, after: LineTable)
    requires Sent(t, next, reqs, after) && line in t && after.Keys == t.Keys
    requires after[line].condition == condition
    requires forall l | l in t && l != line :: after[l].condition == t[l].condition
    ensures after == t[line := t[line].(condition := condition)]
  {
  }

  /** From agreeing layers, a condition change gives the entry with the id, and the engine's record
      with the id, exactly this condition, and changes nothing else; without such an entry it changes
      nothing at all. */
  lemma ConditionExact(st: Mi, id: nat, condition: string, resolve: Resolver, r: Mi)
    requires Valid(st.engine) && AllAgree(st) && ConditionStep(st, id, condition, resolve, r)
    ensures (forall f :: id !in EntriesOf(st, f)) ==> r == st
    ensures forall f | id in EntriesOf(st, f) ::
              var m, t := EntriesOf(st, f), Table(st.engine, f);
              && OnlyFile(st, r, f) && m[id].line in t
              && EntriesOf(r, f) == m[id := Request(m[id].line, condition)]
              && Table(r.engine, f) == t[m[id].line := t[m[id].line].(condition := condition)]
  {
    if f :| id in EntriesOf(st, f) {
      var file, order :| file in st.lines && id in st.lines[file] && Lists(order, st.lines[file].Keys)
                         && ConditionChanged(st, file, id, condition, resolve, order, r);
      forall g | id in EntriesOf(st, g) ensures g == file { OneFile(st, g, file, id); }
      ConditionChanges(st, file, id, condition, resolve, order, r);
    } else {
      assert forall f | f in st.lines :: id !in EntriesOf(st, f);
    }
  }

  /** Layers that agree have an id in one file. */
  lemma OneFile(st: Mi, f: string, g: string, id: nat)
    requires Valid(st.engine) && AllAgree(st) && id in EntriesOf(st, f) && id in EntriesOf(st, g)
    ensures f == g
  {
    assert Agree(EntriesOf(st, f), Table(st.engine, f)) && Agree(EntriesOf(st, g), Table(st.engine, g));
    assert Owns(st.engine, LineAt(f, EntriesOf(st, f)[id].line), id);
    assert Owns(st.engine, LineAt(g, EntriesOf(st, g)[id].line), id);
  }

  lemma ConditionChanges(st: Mi, file: string, id: nat, condition: string, resolve: Resolver, order: seq<nat>, r: Mi)
    requires Valid(st.engine) && AllAgree(st)
    requires file in st.lines && id in st.lines[file] && Lists(order, st.lines[file].Keys)
    requires ConditionChanged(st, file, id, condition, resolve, order, r)
    ensures var m, t := st.lines[file], Table(st.engine, file);
      && OnlyFile(st, r, file) && m[id].line in t
      && EntriesOf(r, file) == m[id := Request(m[id].line, condition)]
      && Table(r.engine, file) == t[m[id].line := t[m[id].line].(condition := condition)]
  {
    var m, t := st.lines[file], Table(st.engine, file);
    assert Agree(m, t) by { assert Agree(EntriesOf(st, file), t); }
    ConditionSends(st, file, id, condition, resolve, order, r);
    ConditionTable(m, order, t, st.engine.next, id, condition, Table(r.engine, file));
  }

  lemma ConditionTable(m: Entries, order: seq<nat>, t: LineTable, next: nat, id: nat, condition: string,
                       after: LineTable)
    requires Agree(m, t) && id in m && Lists(order, m.Keys)
    requires Sent(t, next, Gathered(Changed(m, id, condition), order) + [], after)
    ensures m[id].line in t && after == t[m[id].line := t[m[id].line].(condition := condition)]
    ensures Changed(m, id, condition) == m[id := Request(m[id].line, condition)]
  {
    ConditionsSent(m, order, t, next, id, condition, after);
    OneChanged(t, next, Gathered(Changed(m, id, condition), order) + [], m[id].line, condition, after);
  }

  lemma ConditionsSent(m: Entries, order: seq<nat>, t: LineTable, next: nat, id: nat, condition: string,
                       after: LineTable)
    requires Agree(m, t) && id in m && Lists(order, m.Keys)
    requires Sent(t, next, Gathered(Changed(m, id, condition), order) + [], after)
    ensures after.Keys == t.Keys && after[m[id].line].condition == condition
    ensures forall l | l in t && l != m[id].line :: after[l].condition == t[l].condition
  {
    var c := Changed(m, id, condition);
    assert Paired(c, t);
    SentAgrees(c, order, t, next, after);
    SentLines(c, order, t, next, after);
    forall l ensures l in t <==> l in Lines(c) {
      if l in t { assert c[t[l].id].line == l; }
    }
    assert c[id].condition == condition;
    forall l | l in t && l != m[id].line ensures after[l].condition == t[l].condition {
      assert c[t[l].id] == m[t[l].id];
    }
  }

  /** From agreeing layers, an insert on a taken line gives the engine's record this condition and
      leaves the MI table as it is; on a free line both get one new breakpoint, with a new id, this
      line and this condition, bound to what the symbols say.  Nothing else changes. */
  lemma InsertExact(st: Mi, file: string, line: int, condition: string, resolve: Resolver, r: Mi)
    requires Valid(st.engine) && AllAgree(st) && InsertStep(st, file, line, condition, resolve, r)
    ensures OnlyFile(st, r, file) && line in Table(r.engine, file)
    ensures var m, t, after := EntriesOf(st, file), Table(st.engine, file), Table(r.engine, file);
      if line in t
      then EntriesOf(r, file) == m && after == t[line := t[line].(condition := condition)]
      else && after[line].id >= st.engine.next && EntriesOf(r, file) == m[after[line].id := Request(line, condition)]
           && after == t[line := Record(after[line].id, condition, NewLine(file, line, resolve))]
  {
    var order :| Lists(order, EntriesOf(st, file).Keys) && Inserted(st, file, line, condition, resolve, order, r);
    var out := InsertSends(st, file, line, condition, resolve, order, r);
    assert Agree(EntriesOf(st, file), Table(st.engine, file));
    InsertOnly(st, file, line, condition, resolve, order, out, r);
    InsertTables(EntriesOf(st, file), order, Table(st.engine, file), st.engine.next, line, condition,
                 Table(r.engine, file), out);
    assert EntriesOf(r, file) == Recorded(EntriesOf(st, file), out, line);
  }

  lemma InsertOnly(st: Mi, file: string, line: int, condition: string, resolve: Resolver, order: seq<nat>,
                   out: seq<Breakpoint>, r: Mi)
    requires Lists(order, EntriesOf(st, file).Keys)
    requires InsertSent(st, file, line, condition, resolve, order, out, r)
    ensures OnlyFile(st, r, file)
  {
  }

  lemma InsertTables(m: Entries, order: seq<nat>, t: LineTable, next: nat, line: int, condition: string,
                     after: LineTable, out: seq<Breakpoint>)
    requires Agree(m, t) && IdsBelow(t, next) && Lists(order, m.Keys)
    requires Sent(t, next, InsertRequests(m, order, line, condition), after)
    requires Answered(InsertRequests(m, order, line, condition), after, out)
    requires exists i :: 0 <= i < |out| && out[i].line == line
    ensures line in after
    ensures if line in t
            then Recorded(m, out, line) == m && after == t[line := t[line].(condition := condition)]
            else && after[line].id >= next && Recorded(m, out, line) == m[after[line].id := Request(line, condition)]
                 && after == t[line := Record(after[line].id, condition, after[line].detail)]
  {
    InsertTable(m, order, t, next, line, condition, after);
    if line in t {
      TakenKept(m, order, t, next, line, condition, after, out);
      assert after[line] == t[line].(condition := condition) by { assert line in after && line in t; }
      OneUpdated(t, line, t[line].(condition := condition), after);
    } else {
      FreeRecorded(m, order, t, next, line, condition, after, out);
      OneUpdated(t, line, after[line], after);
    }
  }

  lemma OneUpdated(t: LineTable, line: int, b: Record<LineDetail>, after: LineTable)
    requires line in after && after[line] == b && after.Keys == t.Keys + {line}
    requires forall l | l in t && l != line :: after[l] == t[l]
    ensures after == t[line := b]
  {
  }

  lemma LinesAre(m: Entries, t: LineTable)
    requires Agree(m, t)
    ensures Lines(m) == t.Keys
  {
    forall l ensures l in Lines(m) <==> l in t {
      if l in t { assert m[t[l].id].line == l; }
    }
  }

  lemma InsertTable(m: Entries, order: seq<nat>, t: LineTable, next: nat, line: int, condition: string,
                    after: LineTable)
    requires Agree(m, t) && Lists(order, m.Keys) && Sent(t, next, InsertRequests(m, order, line, condition), after)
    ensures line in Lines(m) <==> line in t
    ensures line in after && after.Keys == t.Keys + {line} && after[line].condition == condition
    ensures forall l | l in t && l != line :: after[l] == t[l]
  {
    var reqs, last := InsertRequests(m, order, line, condition), Request(line, condition);
    assert reqs[|order|] == last;
    LinesAre(m, t);
    SentInsertKeys(m, order, t, next, line, condition, after);
    assert after[line].condition == condition by { LastConditionIs(reqs, line, |order|); }
    forall l | l in t && l != line ensures after[l] == t[l] {
      assert !Requests([last], l);
      GatheredCondition(m, order, [last], t[l].id);
    }
  }

  lemma FreeRecorded(m: Entries, order: seq<nat>, t: LineTable, next: nat, line: int, condition: string,
                     after: LineTable, out: seq<Breakpoint>)
    requires Agree(m, t) && IdsBelow(t, next) && Lists(order, m.Keys) && line !in Lines(m)
    requires Sent(t, next, InsertRequests(m, order, line, condition), after)
    requires Answered(InsertRequests(m, order, line, condition), after, out)
    requires exists i :: 0 <= i < |out| && out[i].line == line
    ensures line in after && Recorded(m, out, line) == m[after[line].id := Request(line, condition)]
  {
    var n := |order|;
    assert InsertRequests(m, order, line, condition)[n] == Request(line, condition);
    assert FirstAt(out, line) == n by {
      forall i | 0 <= i < n ensures out[i].line != line { assert order[i] in m; }
    }
  }

  lemma DeleteWithin(st: Mi, ids: set<nat>, resolve: Resolver, r: Mi)
    requires Valid(st.engine) && Within(st) && DeleteStep(st, ids, resolve, r)
    ensures Valid(r.engine) && Within(r)
  {
    DeleteExact(st, ids, resolve, r);
    forall f ensures Table(r.engine, f).Keys <= Lines(EntriesOf(r, f)) {
      assert EntriesOf(r, f) == EntriesOf(st, f);
      assert Table(st.engine, f).Keys <= Lines(EntriesOf(st, f));
    }
  }

  /** Tables that agree still agree after a delete exactly when it names no id of theirs. */
  lemma DeleteAgreesExact(st: Mi, ids: set<nat>, resolve: Resolver, r: Mi)
    requires Valid(st.engine) && AllAgree(st) && DeleteStep(st, ids, resolve, r)
    ensures AllAgree(r) <==> forall f :: EntriesOf(st, f).Keys !! ids
  {
    DeleteExact(st, ids, resolve, r);
    if f :| !(EntriesOf(st, f).Keys !! ids) {
      var m := EntriesOf(st, f);
      var id :| id in m && id in ids;
      assert m[id].line !in Lines(Remaining(m, ids)) by {
        assert Agree(m, Table(st.engine, f));
      }
      assert EntriesOf(r, f) == m && !Agree(m, Table(r.engine, f));
    } else {
      forall f ensures Agree(EntriesOf(r, f), Table(r.engine, f)) {
        assert EntriesOf(st, f).Keys !! ids && EntriesOf(r, f) == EntriesOf(st, f);
      }
    }
  }

  // ---------------------------------------------------------------- runs

  datatype Command =
    | Insert(file: string, line: int, condition: string)
    | Condition(id: nat, condition: string)
    | Delete(ids: set<nat>)
    | Engine(op: Op)

  ghost predicate Step(st: Mi, c: Command, resolve: Resolver, r: Mi) {
    match c
    case Insert(file, line, condition) => InsertStep(st, file, line, condition, resolve, r)
    case Condition(id, condition) => ConditionStep(st, id, condition, resolve, r)
    case Delete(ids) => DeleteStep(st, ids, resolve, r)
    case Engine(op) => Background(op) && r == st.(engine := Apply(st.engine, op))
  }

  const MI_START := Mi(map[], START)

  ghost predicate StepIn(states: seq<Mi>, commands: seq<Command>, symbols: seq<Resolver>, i: nat)
    requires |states| == |commands| + 1 && |symbols| == |commands| && i < |commands|
  {
    Step(states[i], commands[i], symbols[i], states[i + 1])
  }

  /** A run: the states before and after each command, and what symbols said during it. */
  ghost predicate IsRun(states: seq<Mi>, commands: seq<Command>, symbols: seq<Resolver>) {
    && |states| == |commands| + 1 && |symbols| == |commands|
    && states[0] == MI_START
    && forall i | 0 <= i < |commands| :: StepIn(states, commands, symbols, i)
  }

  /** The command does not set the layers apart: an insert is on a free line or repeats the
      recorded condition, and a delete names no recorded id. */
  ghost predicate Harmless(st: Mi, c: Command) {
    match c
    case Insert(file, line, condition) => Repeats(EntriesOf(st, file), line, condition)
    case Condition(_, _) => true
    case Delete(ids) => forall f :: EntriesOf(st, f).Keys !! ids
    case Engine(_) => true
  }

  lemma StepKept(st: Mi, c: Command, resolve: Resolver, r: Mi)
    requires Valid(st.engine) && Step(st, c, resolve, r)
    ensures Kept(st.engine, r.engine)
  {
    match c
    case Insert(file, line, condition) =>
      var order :| Lists(order, EntriesOf(st, file).Keys) && Inserted(st, file, line, condition, resolve, order, r);
      SetLinesKeeps(st.engine, file, InsertRequests(EntriesOf(st, file), order, line, condition), resolve);
    case Condition(id, condition) =>
      if r != st {
        var file, order :| file in st.lines && id in st.lines[file] && Lists(order, st.lines[file].Keys)
                           && ConditionChanged(st, file, id, condition, resolve, order, r);
        SetLinesKeeps(st.engine, file, Gathered(Changed(st.lines[file], id, condition), order), resolve);
      }
    case Delete(ids) =>
      var files :| Lists(files, st.lines.Keys) && DeletesTo(st.lines, st.engine, files, ids, resolve, r.engine);
      DeletesKept(st.lines, st.engine, files, ids, resolve, r.engine);
    case Engine(op) => ApplyKeeps(st.engine, op);
  }

  lemma EngineAgrees(st: Mi, op: Op)
    requires Background(op) && AllAgree(st)
    ensures AllAgree(st.(engine := Apply(st.engine, op)))
  {
    var r := st.(engine := Apply(st.engine, op));
    forall f ensures Agree(EntriesOf(r, f), Table(r.engine, f)) {
      assert Agree(EntriesOf(st, f), Table(st.engine, f));
      BackgroundTables(st.engine, op, f);
    }
  }

  /** One command, from layers that agree. */
  lemma StepAgreesExact(st: Mi, c: Command, resolve: Resolver, r: Mi)
    requires Valid(st.engine) && AllAgree(st) && Step(st, c, resolve, r)
    ensures AllAgree(r) <==> Harmless(st, c)
  {
    match c
    case Insert(file, line, condition) =>
      var order :| Lists(order, EntriesOf(st, file).Keys) && Inserted(st, file, line, condition, resolve, order, r);
      InsertAgreesExact(st, file, line, condition, resolve, order, r);
    case Condition(id, condition) =>
      if r != st {
        var file, order :| file in st.lines && id in st.lines[file] && Lists(order, st.lines[file].Keys)
                           && ConditionChanged(st, file, id, condition, resolve, order, r);
        ConditionAgrees(st, file, id, condition, resolve, order, r);
      }
    case Delete(ids) => DeleteAgreesExact(st, ids, resolve, r);
    case Engine(op) => EngineAgrees(st, op);
  }

  lemma StepAt(states: seq<Mi>, commands: seq<Command>, symbols: seq<Resolver>, i: nat)
    requires IsRun(states, commands, symbols) && i < |commands|
    ensures Step(states[i], commands[i], symbols[i], states[i + 1])
  {
    assert StepIn(states, commands, symbols, i);
  }

  lemma NextValid(states: seq<Mi>, commands: seq<Command>, symbols: seq<Resolver>, i: nat)
    requires IsRun(states, commands, symbols) && i < |commands| && Valid(states[i].engine)
    ensures Valid(states[i + 1].engine)
  {
    StepAt(states, commands, symbols, i);
    StepKept(states[i], commands[i], symbols[i], states[i + 1]);
  }

  lemma {:induction false} RunValid(states: seq<Mi>, commands: seq<Command>, symbols: seq<Resolver>, k: nat)
    requires IsRun(states, commands, symbols) && k <= |commands|
    ensures Valid(states[k].engine)
  {
    if k == 0 {
      StartAgrees();
      assert states[k] == MI_START;
    } else {
      RunValid(states, commands, symbols, k - 1);
      NextValid(states, commands, symbols, k - 1);
    }
  }

  lemma StepOfRun(states: seq<Mi>, commands: seq<Command>, symbols: seq<Resolver>, i: nat)
    requires IsRun(states, commands, symbols) && i < |commands| && AllAgree(states[i])
    ensures AllAgree(states[i + 1]) <==> Harmless(states[i], commands[i])
  {
    RunValid(states, commands, symbols, i);
    StepAt(states, commands, symbols, i);
    StepAgreesExact(states[i], commands[i], symbols[i], states[i + 1]);
  }

  lemma {:induction false} HarmlessAgrees(states: seq<Mi>, commands: seq<Command>, symbols: seq<Resolver>, k: nat)
    requires IsRun(states, commands, symbols) && k <= |commands|
    requires forall i | 0 <= i < k :: Harmless(states[i], commands[i])
    ensures AllAgree(states[k])
  {
    if k > 0 {
      HarmlessAgrees(states, commands, symbols, k - 1);
      StepOfRun(states, commands, symbols, k - 1);
    }
  }

  /** Over every run of inserts, condition changes, deletes and anything else the engine does
      in between: the two layers describe the same breakpoints after every command, exactly
      when every command is harmless. */
  lemma RunAgreesExact(states: seq<Mi>, commands: seq<Command>, symbols: seq<Resolver>)
    requires IsRun(states, commands, symbols)
    ensures (forall i | 0 <= i < |states| :: AllAgree(states[i]))
       <==> (forall i | 0 <= i < |commands| :: Harmless(states[i], commands[i]))
  {
    if forall i | 0 <= i < |commands| :: Harmless(states[i], commands[i]) {
      forall i | 0 <= i < |states| ensures AllAgree(states[i]) { HarmlessAgrees(states, commands, symbols, i); }
    }
    if forall i | 0 <= i < |states| :: AllAgree(states[i]) {
      forall i | 0 <= i < |commands| ensures Harmless(states[i], commands[i]) {
        StepOfRun(states, commands, symbols, i);
      }
    }
  }

  lemma EngineWithin(st: Mi, op: Op)
    requires Valid(st.engine) && Background(op) && Within(st)
    ensures Within(st.(engine := Apply(st.engine, op)))
  {
    var r := st.(engine := Apply(st.engine, op));
    ApplyKeeps(st.engine, op);
    forall f ensures Table(r.engine, f).Keys <= Lines(EntriesOf(r, f)) {
      BackgroundTables(st.engine, op, f);
    }
  }

  // ---------------------------------------------------------------- ids belong to one file

  predicate Has(lines: map<string, Entries>, file: string, id: nat) {
    file in lines && id in lines[file]
  }

  /** Whatever owns the id is in the file. */
  ghost predicate AtHome(e: State, file: string, id: nat) {
    forall o | Owns(e, o, id) :: o.LineAt? && o.file == file
  }

  /** An id of the MI table is in one file, and whatever owns it in the engine is in that file. */
  ghost predicate Homed(st: Mi) {
    && (forall f, g, id: nat | Has(st.lines, f, id) && Has(st.lines, g, id) :: f == g)
    && (forall f, id: nat | Has(st.lines, f, id) :: AtHome(st.engine, f, id))
  }

  /** A change of the engine that gives no id away leaves an id at home. */
  lemma StaysHome(e: State, r: State, file: string, id: nat)
    requires AtHome(e, file, id) && IdsPersist(e, r) && id < e.next
    ensures AtHome(r, file, id)
  {
    forall o | Owns(r, o, id) ensures o.LineAt? && o.file == file {
      assert Owns(e, o, id);
    }
  }

  lemma EngineHomed(st: Mi, e: State)
    requires (forall f, id | f in st.lines && id in st.lines[f] :: id < st.engine.next) && Homed(st)
      && IdsPersist(st.engine, e)
    ensures Homed(st.(engine := e))
  {
    forall f, id: nat | Has(st.lines, f, id) ensures AtHome(e, f, id) {
      StaysHome(st.engine, e, f, id);
    }
  }

  lemma SameIdsHomed(st: Mi, file: string, m: Entries)
    requires Homed(st) && file in st.lines && m.Keys == st.lines[file].Keys
    ensures Homed(st.(lines := st.lines[file := m]))
  {
    var r := st.(lines := st.lines[file := m]);
    forall f, id: nat | Has(r.lines, f, id) ensures Has(st.lines, f, id) {
      if f == file { assert id in m.Keys; }
    }
  }

  /** An id that a line of the file owns is at home there. */
  lemma OwnedHome(e: State, file: string, line: int)
    requires Valid(e) && line in Table(e, file)
    ensures AtHome(e, file, Table(e, file)[line].id)
  {
    assert Owns(e, LineAt(file, line), Table(e, file)[line].id);
  }

  /** Recording an id that a line of the file owns. */
  lemma NewIdHomed(st: Mi, file: string, line: int, m: Entries)
    requires Homed(st) && Valid(st.engine) && line in Table(st.engine, file)
    requires m.Keys == EntriesOf(st, file).Keys + {Table(st.engine, file)[line].id}
    ensures Homed(st.(lines := st.lines[file := m]))
  {
    var r, owned := st.(lines := st.lines[file := m]), Table(st.engine, file)[line].id;
    OwnedHome(st.engine, file, line);
    forall f, id: nat | Has(r.lines, f, id) ensures Has(st.lines, f, id) || (f == file && id == owned) {
      if f == file { assert id in m.Keys; }
    }
    forall f: string | Has(st.lines, f, owned) ensures f == file {
      assert Owns(st.engine, LineAt(file, line), owned);
    }
  }

  lemma RecordedId(m: Entries, order: seq<nat>, line: int, condition: string, after: LineTable, out: seq<Breakpoint>)
    requires Lists(order, m.Keys) && Answered(InsertRequests(m, order, line, condition), after, out)
    requires exists i :: 0 <= i < |out| && out[i].line == line
    ensures line in after && Recorded(m, out, line).Keys == m.Keys + {after[line].id}
  {
    var i := FirstAt(out, line);
    assert InsertRequests(m, order, line, condition)[i].line == line;
  }

  lemma InsertHomed(st: Mi, file: string, line: int, condition: string, resolve: Resolver, order: seq<nat>, r: Mi)
    requires Valid(st.engine) && Within(st) && Homed(st)
    requires Lists(order, EntriesOf(st, file).Keys) && Inserted(st, file, line, condition, resolve, order, r)
    ensures Homed(r)
  {
    var m := EntriesOf(st, file);
    var out := InsertSends(st, file, line, condition, resolve, order, r);
    assert IdsPersist(st.engine, r.engine) && Valid(r.engine) by {
      SetLinesKeeps(st.engine, file, InsertRequests(m, order, line, condition), resolve);
    }
    EngineHomed(st, r.engine);
    RecordedId(m, order, line, condition, Table(r.engine, file), out);
    NewIdHomed(st.(engine := r.engine), file, line, Recorded(m, out, line));
  }

  lemma ConditionHomed(st: Mi, file: string, id: nat, condition: string, resolve: Resolver, order: seq<nat>, r: Mi)
    requires Valid(st.engine) && Within(st) && Homed(st)
    requires file in st.lines && id in st.lines[file] && Lists(order, st.lines[file].Keys)
    requires ConditionChanged(st, file, id, condition, resolve, order, r)
    ensures Homed(r)
  {
    SetLinesKeeps(st.engine, file, Gathered(Changed(st.lines[file], id, condition), order), resolve);
    EngineHomed(st, r.engine);
    SameIdsHomed(st.(engine := r.engine), file, Changed(st.lines[file], id, condition));
  }

  lemma StepHomed(st: Mi, c: Command, resolve: Resolver, r: Mi)
    requires Valid(st.engine) && Within(st) && Homed(st) && Step(st, c, resolve, r)
    ensures Homed(r)
  {
    match c
    case Insert(file, line, condition) =>
      var order :| Lists(order, EntriesOf(st, file).Keys) && Inserted(st, file, line, condition, resolve, order, r);
      InsertHomed(st, file, line, condition, resolve, order, r);
    case Condition(id, condition) =>
      if r != st {
        var file, order :| file in st.lines && id in st.lines[file] && Lists(order, st.lines[file].Keys)
                           && ConditionChanged(st, file, id, condition, resolve, order, r);
        ConditionHomed(st, file, id, condition, resolve, order, r);
      }
    case Delete(ids) =>
      StepKept(st, c, resolve, r);
      EngineHomed(st, r.engine);
    case Engine(op) =>
      StepKept(st, c, resolve, r);
      EngineHomed(st, r.engine);
  }

  lemma NextWithin(states: seq<Mi>, commands: seq<Command>, symbols: seq<Resolver>, i: nat)
    requires IsRun(states, commands, symbols) && i < |commands|
    requires Valid(states[i].engine) && Within(states[i]) && Homed(states[i])
    ensures Valid(states[i + 1].engine) && Within(states[i + 1]) && Homed(states[i + 1])
  {
    StepAt(states, commands, symbols, i);
    StepHomed(states[i], commands[i], symbols[i], states[i + 1]);
    StepWithin(states[i], commands[i], symbols[i], states[i + 1]);
  }

  /** Over every run at all, deletes included, the engine has no line that the MI table does
      not have, and every id of the MI table is in one file. */
  lemma {:induction false} RunWithin(states: seq<Mi>, commands: seq<Command>, symbols: seq<Resolver>, k: nat)
    requires IsRun(states, commands, symbols) && k <= |commands|
    ensures Valid(states[k].engine) && Within(states[k]) && Homed(states[k])
  {
    if k == 0 {
      StartAgrees();
      assert states[k] == MI_START;
    } else {
      RunWithin(states, commands, symbols, k - 1);
      NextWithin(states, commands, symbols, k - 1);
    }
  }

  /** After an insert, the file has the same lines in both layers; after a condition change, the
      file that has the id does. */
  lemma StepWithin(st: Mi, c: Command, resolve: Resolver, r: Mi)
    requires Valid(st.engine) && Within(st) && Homed(st) && Step(st, c, resolve, r)
    ensures Valid(r.engine) && Within(r)
    ensures c.Insert? ==> Table(r.engine, c.file).Keys == Lines(EntriesOf(r, c.file))
    ensures c.Condition? ==>
      forall f | f in st.lines && c.id in st.lines[f] :: Table(r.engine, f).Keys == Lines(EntriesOf(r, f))
  {
    StepKept(st, c, resolve, r);
    match c
    case Insert(file, line, condition) =>
      var order :| Lists(order, EntriesOf(st, file).Keys) && Inserted(st, file, line, condition, resolve, order, r);
      InsertWithin(st, file, line, condition, resolve, order, r);
    case Condition(id, condition) =>
      if exists f :: f in st.lines && id in st.lines[f] {
        var file, order :| file in st.lines && id in st.lines[file] && Lists(order, st.lines[file].Keys)
                           && ConditionChanged(st, file, id, condition, resolve, order, r);
        ConditionWithin(st, file, id, condition, resolve, order, r);
        forall f | f in st.lines && id in st.lines[f] ensures f == file {
          assert Has(st.lines, f, id) && Has(st.lines, file, id);
        }
      }
    case Delete(ids) => DeleteWithin(st, ids, resolve, r);
    case Engine(op) => EngineWithin(st, op);
  }

  // ---------------------------------------------------------------- runs that set the layers apart

  /** Every insert can happen. */
  lemma SomeInsert(st: Mi, file: string, line: int, condition: string, resolve: Resolver) returns (r: Mi)
    requires Valid(st.engine)
    ensures InsertStep(st, file, line, condition, resolve, r)
  {
    var m := EntriesOf(st, file);
    var order := SomeOrder(m.Keys);
    var reqs := InsertRequests(m, order, line, condition);
    var out := ToBreakpoints(Replaced(st.engine, file, reqs, resolve).out);
    Sending(st.engine, file, reqs, resolve);
    assert reqs[|order|].line == line && out[|order|].line == line;
    r := Mi(st.lines[file := Recorded(m, out, line)], Apply(st.engine, SetLines(file, reqs, resolve)));
    assert Inserted(st, file, line, condition, resolve, order, r);
  }

  lemma {:induction false} SomeDeletes(lines: map<string, Entries>, e: State, files: seq<string>, ids: set<nat>,
                                       resolve: Resolver) returns (r: State)
    requires forall f <- files :: f in lines
    ensures DeletesTo(lines, e, files, ids, resolve, r)
  {
    if files == [] {
      r := e;
    } else {
      var init, last := files[..|files| - 1], files[|files| - 1];
      var mid := SomeDeletes(lines, e, init, ids, resolve);
      if lines[last].Keys !! ids {
        r := mid;
      } else {
        var order := SomeOrder(lines[last].Keys - ids);
        r := Apply(mid, SetLines(last, Gathered(lines[last], order), resolve));
      }
      assert FileDeletesTo(lines[last], mid, last, ids, resolve, r);
    }
  }

  lemma SomeDelete(st: Mi, ids: set<nat>, resolve: Resolver) returns (r: Mi)
    ensures DeleteStep(st, ids, resolve, r)
  {
    var files := SomeOrder(st.lines.Keys);
    var e := SomeDeletes(st.lines, st.engine, files, ids, resolve);
    r := Mi(st.lines, e);
  }

  lemma EntryFor(m: Entries, order: seq<nat>, t: LineTable, next: nat, line: int, condition: string, after: LineTable,
                 m': Entries) returns (id: nat)
    requires Lists(order, m.Keys) && Sent(t, next, InsertRequests(m, order, line, condition), after) && Agree(m', after)
    ensures id in m' && m'[id] == Request(line, condition)
  {
    var reqs := InsertRequests(m, order, line, condition);
    assert reqs[|order|] == Request(line, condition);
    assert Requests(reqs, line) && LastCondition(reqs, line) == condition;
    id := after[line].id;
  }

  /** What an insert on a free line records. */
  lemma InsertedEntry(st: Mi, file: string, line: int, condition: string, resolve: Resolver, r: Mi) returns (id: nat)
    requires Valid(st.engine) && AllAgree(st) && line !in Lines(EntriesOf(st, file))
    requires InsertStep(st, file, line, condition, resolve, r)
    ensures Valid(r.engine) && AllAgree(r)
    ensures id in EntriesOf(r, file) && EntriesOf(r, file)[id] == Request(line, condition)
  {
    var m := EntriesOf(st, file);
    var order :| Lists(order, m.Keys) && Inserted(st, file, line, condition, resolve, order, r);
    var out := InsertSends(st, file, line, condition, resolve, order, r);
    InsertAgrees(st, file, line, condition, resolve, order, out, r);
    StepKept(st, Insert(file, line, condition), resolve, r);
    id := EntryFor(m, order, Table(st.engine, file), st.engine.next, line, condition, Table(r.engine, file),
                   EntriesOf(r, file));
  }

  lemma DeletedGone(a: Mi, file: string, id: nat, resolve: Resolver, b: Mi)
    requires Valid(a.engine) && AllAgree(a) && id in EntriesOf(a, file) && DeleteStep(a, {id}, resolve, b)
    ensures !AllAgree(b) && EntriesOf(b, file) == EntriesOf(a, file)
    ensures EntriesOf(a, file)[id].line in Table(a.engine, file)
      && EntriesOf(a, file)[id].line !in Table(b.engine, file)
  {
    var m := EntriesOf(a, file);
    DeleteAgreesExact(a, {id}, resolve, b);
    DeleteExact(a, {id}, resolve, b);
    assert Agree(m, Table(a.engine, file)) && id in m.Keys * {id};
    assert m[id].line !in Lines(Remaining(m, {id}));
  }

  lemma EntryStays(b: Mi, file: string, id: nat, other: int, condition: string, resolve: Resolver, c: Mi)
    requires InsertStep(b, file, other, condition, resolve, c) && id in EntriesOf(b, file)
    ensures id in EntriesOf(c, file) && EntriesOf(c, file)[id] == EntriesOf(b, file)[id]
  {
    var order :| Lists(order, EntriesOf(b, file).Keys) && Inserted(b, file, other, condition, resolve, order, c);
  }

  lemma EntryReturns(b: Mi, file: string, id: nat, other: int, condition: string, resolve: Resolver, c: Mi)
    requires Valid(b.engine) && Within(b) && Homed(b) && id in EntriesOf(b, file)
    requires InsertStep(b, file, other, condition, resolve, c)
    ensures EntriesOf(b, file)[id].line in Table(c.engine, file)
  {
    StepWithin(b, Insert(file, other, condition), resolve, c);
    EntryStays(b, file, id, other, condition, resolve, c);
  }

  lemma StartAgrees()
    ensures Valid(MI_START.engine) && AllAgree(MI_START) && Within(MI_START) && Homed(MI_START)
  {
    StartValid();
  }

  lemma RunNext(states: seq<Mi>, commands: seq<Command>, symbols: seq<Resolver>, c: Command, resolve: Resolver, r: Mi)
    requires IsRun(states, commands, symbols) && Step(states[|commands|], c, resolve, r)
    ensures IsRun(states + [r], commands + [c], symbols + [resolve])
  {
    var n, states', commands', symbols' := |commands|, states + [r], commands + [c], symbols + [resolve];
    forall i | 0 <= i <= n ensures StepIn(states', commands', symbols', i) {
      if i < n { assert StepIn(states, commands, symbols, i); }
    }
  }

  lemma RunOfTwo(c1: Command, c2: Command, a: Mi, b: Mi, resolve: Resolver)
    requires Step(MI_START, c1, resolve, a) && Step(a, c2, resolve, b)
    ensures IsRun([MI_START, a, b], [c1, c2], [resolve, resolve])
  {
    RunNext([MI_START], [], [], c1, resolve, a);
    assert [MI_START] + [a] == [MI_START, a] && [] + [c1] == [c1] && [] + [resolve] == [resolve];
    RunNext([MI_START, a], [c1], [resolve], c2, resolve, b);
    assert [MI_START, a] + [b] == [MI_START, a, b] && [c1] + [c2] == [c1, c2]
      && [resolve] + [resolve] == [resolve, resolve];
  }

  lemma RunOfThree(c1: Command, c2: Command, c3: Command, a: Mi, b: Mi, c: Mi, resolve: Resolver)
    requires Step(MI_START, c1, resolve, a) && Step(a, c2, resolve, b) && Step(b, c3, resolve, c)
    ensures IsRun([MI_START, a, b, c], [c1, c2, c3], [resolve, resolve, resolve])
  {
    RunOfTwo(c1, c2, a, b, resolve);
    RunNext([MI_START, a, b], [c1, c2], [resolve, resolve], c3, resolve, c);
    assert [MI_START, a, b] + [c] == [MI_START, a, b, c] && [c1, c2] + [c3] == [c1, c2, c3];
    assert [resolve, resolve] + [resolve] == [resolve, resolve, resolve];
  }

  /** An insert, a delete of its id, and an insert on another line: the layers are apart after the
      delete, and the last insert brings the deleted line back. */
  lemma DeletedLineReturns(file: string, line: int, other: int, resolve: Resolver) returns (id: nat, states: seq<Mi>)
    ensures IsRun(states, [Insert(file, line, ""), Delete({id}), Insert(file, other, "")], [resolve, resolve, resolve])
    ensures AllAgree(states[1]) && line in Table(states[1].engine, file)
    ensures !AllAgree(states[2]) && line !in Table(states[2].engine, file)
    ensures line in Table(states[3].engine, file)
  {
    StartAgrees();
    var a := SomeInsert(MI_START, file, line, "", resolve);
    id := InsertedEntry(MI_START, file, line, "", resolve, a);
    var b := SomeDelete(a, {id}, resolve);
    DeletedGone(a, file, id, resolve, b);
    StepKept(a, Delete({id}), resolve, b);
    var c := SomeInsert(b, file, other, "", resolve);
    var c1, c2, c3 := Insert(file, line, ""), Delete({id}), Insert(file, other, "");
    RunOfThree(c1, c2, c3, a, b, c, resolve);
    states := [MI_START, a, b, c];
    RunWithin(states, [c1, c2, c3], [resolve, resolve, resolve], 2);
    EntryReturns(b, file, id, other, "", resolve, c);
  }

  /** An insert on a taken line with another condition. */
  lemma TakenLineApart(file: string, line: int, condition: string, resolve: Resolver) returns (states: seq<Mi>)
    requires condition != ""
    ensures IsRun(states, [Insert(file, line, ""), Insert(file, line, condition)], [resolve, resolve])
    ensures AllAgree(states[1]) && !AllAgree(states[2])
  {
    StartAgrees();
    var a := SomeInsert(MI_START, file, line, "", resolve);
    var id := InsertedEntry(MI_START, file, line, "", resolve, a);
    var b := SomeInsert(a, file, line, condition, resolve);
    StepAgreesExact(a, Insert(file, line, condition), resolve, b);
    assert !Repeats(EntriesOf(a, file), line, condition);
    RunOfTwo(Insert(file, line, ""), Insert(file, line, condition), a, b, resolve);
    states := [MI_START, a, b];
  }

  // ---------------------------------------------------------------- what the methods use

  lemma InsertAnswered(e: State, file: string, m: Entries, order: seq<nat>, line: int, condition: string,
                       resolve: Resolver)
    requires Engine.Valid(e) && Lists(order, m.Keys)
    ensures var reqs := InsertRequests(m, order, line, condition);
      var out := ToBreakpoints(Replaced(e, file, reqs, resolve).out);
      && Engine.Valid(Apply(e, SetLines(file, reqs, resolve)))
      && |out| == |order| + 1 && out[|order|].line == line
  {
    var reqs := InsertRequests(m, order, line, condition);
    assert reqs[|order|].line == line;
    SetLinesAnswers(e, file, reqs, resolve);
    SetLinesKeeps(e, file, reqs, resolve);
  }

  lemma DeletesNext(lines: map<string, Entries>, e: State, files: seq<string>, file: string, ids: set<nat>,
                    resolve: Resolver, mid: State, r: State)
    requires (forall f <- files :: f in lines) && file in lines
    requires DeletesTo(lines, e, files, ids, resolve, mid) && FileDeletesTo(lines[file], mid, file, ids, resolve, r)
    ensures DeletesTo(lines, e, files + [file], ids, resolve, r)
  {
    var all := files + [file];
    assert all[|files|] == file && all[..|files|] == files;
    assert DeletesTo(lines, e, all[..|files|], ids, resolve, mid);
  }
}
