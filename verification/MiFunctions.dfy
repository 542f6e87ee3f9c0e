/**
 The function breakpoints of the MI layer: a table by id, of which the engine is sent the whole
 list on every command.  An insert records the first answer for a function of that name, which
 may be another breakpoint's.
 */
module MiFunctions {
  import opened Tables
  import opened Engine

  type Entries = map<nat, FuncRequest>
  type FuncTable = map<string, Record<FuncDetail>>

  datatype Mi = Mi(funcs: Entries, engine: State)

  // ---------------------------------------------------------------- the commands

  /** The position of the first answer for a function of the name, or the number of answers. */
  function FirstNamed(out: seq<Record<FuncDetail>>, func: string): (i: nat)
    ensures i <= |out| && (i < |out| ==> out[i].detail.name == func)
    ensures forall j | 0 <= j < i :: out[j].detail.name != func
  {
    if out == [] || out[0].detail.name == func then 0 else 1 + FirstNamed(out[1..], func)
  }

  function Answer(b: Record<FuncDetail>): FuncRequest {
    FuncRequest(b.detail.mod, b.detail.name, b.detail.params, b.condition)
  }

  /** The MI entries after the engine has answered an insert. */
  function Recorded(m: Entries, out: seq<Record<FuncDetail>>, func: string): Entries {
    var i := FirstNamed(out, func);
    if i == |out| || out[i].id in m then m else m[out[i].id := Answer(out[i])]
  }

  function Answers(e: State, reqs: seq<FuncRequest>, resolve: FuncResolver): seq<Record<FuncDetail>> {
    Sync(e.funcs, e.next, FuncAsks(reqs, resolve)).out
  }

  ghost predicate InsertStep(st: Mi, q: FuncRequest, resolve: FuncResolver, r: Mi) {
    exists order | Lists(order, st.funcs.Keys) :: Inserted(st, q, resolve, order, r)
  }

  ghost predicate Inserted(st: Mi, q: FuncRequest, resolve: FuncResolver, order: seq<nat>, r: Mi)
    requires Lists(order, st.funcs.Keys)
  {
    var reqs := Gathered(st.funcs, order) + [q];
    r == Mi(Recorded(st.funcs, Answers(st.engine, reqs, resolve), q.func), Apply(st.engine, SetFuncs(reqs, resolve)))
  }

  function Changed(m: Entries, id: nat, condition: string): Entries
    requires id in m
  {
    m[id := m[id].(condition := condition)]
  }

  ghost predicate ConditionStep(st: Mi, id: nat, condition: string, resolve: FuncResolver, r: Mi) {
    if id !in st.funcs then r == st
    else
      var m := Changed(st.funcs, id, condition);
      exists order | Lists(order, m.Keys) :: r == Mi(m, Apply(st.engine, SetFuncs(Gathered(m, order), resolve)))
  }

  /** A delete changes the engine only. */
  ghost predicate DeleteStep(st: Mi, ids: set<nat>, resolve: FuncResolver, r: Mi) {
    if st.funcs.Keys !! ids then r == st
    else exists order | Lists(order, st.funcs.Keys - ids) ::
           r == st.(engine := Apply(st.engine, SetFuncs(Gathered(st.funcs, order), resolve)))
  }

  // ---------------------------------------------------------------- what the engine makes of a list

  predicate Describes(d: FuncDetail, q: FuncRequest) {
    d.mod == q.mod && d.name == q.func && d.params == q.params
  }

  /** The record of a requested function: the last condition; what the table had, or else a new id
      and the first request. */
  ghost predicate SentFor(t: FuncTable, next: nat, reqs: seq<FuncRequest>, k: string, b: Record<FuncDetail>) {
    && (forall i: nat | LastFor(reqs, k, i) :: b.condition == reqs[i].condition)
    && (k in t ==> b.id == t[k].id && b.detail == t[k].detail)
    && (k !in t ==> b.id >= next && forall i: nat | FirstFor(reqs, k, i) :: Describes(b.detail, reqs[i]))
  }

  ghost predicate Sent(t: FuncTable, next: nat, reqs: seq<FuncRequest>, after: FuncTable) {
    (forall k :: k in after <==> Requested(reqs, k)) && forall k | k in after :: SentFor(t, next, reqs, k, after[k])
  }

  ghost predicate Answered(reqs: seq<FuncRequest>, after: FuncTable, out: seq<Record<FuncDetail>>) {
    && |out| == |reqs|
    && forall i | 0 <= i < |reqs| ::
         && FullName(reqs[i]) in after
         && out[i] == after[FullName(reqs[i])].(condition := reqs[i].condition)
  }

  lemma SentBy(e: State, reqs: seq<FuncRequest>, resolve: FuncResolver)
    ensures Sent(e.funcs, e.next, reqs, Apply(e, SetFuncs(reqs, resolve)).funcs)
  {
    var r := Apply(e, SetFuncs(reqs, resolve));
    SetFuncsReplaces(e, reqs, resolve);
    forall k | k in r.funcs ensures SentFor(e.funcs, e.next, reqs, k, r.funcs[k]) {
      assert FuncReplaced(e, reqs, resolve, k, r.funcs[k], r.next);
    }
  }

  lemma AnsweredBy(e: State, reqs: seq<FuncRequest>, resolve: FuncResolver)
    ensures Answered(reqs, Apply(e, SetFuncs(reqs, resolve)).funcs, Answers(e, reqs, resolve))
  {
    var asks := FuncAsks(reqs, resolve);
    SyncAnswers(e.funcs, e.next, asks);
    forall i | 0 <= i < |reqs| ensures asks[i].key == FullName(reqs[i]) && asks[i].condition == reqs[i].condition {
    }
  }

  // ---------------------------------------------------------------- agreement

  /** The MI entries and the engine's table have the same functions under the same ids. */
  ghost predicate Paired(m: Entries, t: FuncTable) {
    && (forall id | id in m ::
          FullName(m[id]) in t && t[FullName(m[id])].id == id && Describes(t[FullName(m[id])].detail, m[id]))
    && (forall k | k in t :: t[k].id in m && FullName(m[t[k].id]) == k)
  }

  /** They describe the same breakpoints. */
  ghost predicate Agree(m: Entries, t: FuncTable) {
    Paired(m, t) && forall id | id in m :: t[FullName(m[id])].condition == m[id].condition
  }

  ghost predicate Agreeing(st: Mi) {
    Agree(st.funcs, st.engine.funcs)
  }

  predicate Named(m: Entries, k: string) {
    exists id :: id in m && FullName(m[id]) == k
  }

  lemma GatheredRequests(m: Entries, order: seq<nat>, tail: seq<FuncRequest>, k: string)
    requires Lists(order, m.Keys)
    ensures Requested(Gathered(m, order) + tail, k) <==> Named(m, k) || Requested(tail, k)
  {
    var reqs := Gathered(m, order) + tail;
    if Named(m, k) {
      var id :| id in m && FullName(m[id]) == k;
      var i :| 0 <= i < |order| && order[i] == id;
      assert FullName(reqs[i]) == k;
    }
    if Requested(tail, k) {
      var i :| 0 <= i < |tail| && FullName(tail[i]) == k;
      assert FullName(reqs[|order| + i]) == k;
    }
    if Requested(reqs, k) {
      var i :| 0 <= i < |reqs| && FullName(reqs[i]) == k;
      if i < |order| { assert order[i] in m; } else { assert FullName(tail[i - |order|]) == k; }
    }
  }

  /** No two entries are for the same function. */
  ghost predicate OneEach(m: Entries) {
    forall i, j | i in m && j in m && FullName(m[i]) == FullName(m[j]) :: i == j
  }

  /** The request of an entry is the only one for its function. */
  lemma GatheredOnce(m: Entries, order: seq<nat>, tail: seq<FuncRequest>, id: nat) returns (i: nat)
    requires Lists(order, m.Keys) && OneEach(m) && id in m
    ensures var reqs, k := Gathered(m, order) + tail, FullName(m[id]);
      && i < |order| && order[i] == id && reqs[i] == m[id]
      && FirstFor(reqs, k, i) && (!Requested(tail, k) ==> LastFor(reqs, k, i))
  {
    var reqs, k := Gathered(m, order) + tail, FullName(m[id]);
    i :| 0 <= i < |order| && order[i] == id;
    forall j | 0 <= j < |reqs| && j != i ensures FullName(reqs[j]) != k || (j >= |order| && Requested(tail, k)) {
      if j < |order| {
        assert order[j] in m && order[j] != id;
      } else {
        assert reqs[j] == tail[j - |order|];
      }
    }
  }

  /** What sending does to an entry that the tail does not ask for again. */
  lemma EntrySent(m: Entries, order: seq<nat>, t: FuncTable, next: nat, tail: seq<FuncRequest>, after: FuncTable,
                  id: nat)
    requires Lists(order, m.Keys) && Paired(m, t) && Sent(t, next, Gathered(m, order) + tail, after)
    requires id in m && !Requested(tail, FullName(m[id]))
    ensures var k := FullName(m[id]);
      k in after && after[k].id == id && Describes(after[k].detail, m[id]) && after[k].condition == m[id].condition
  {
    var i := GatheredOnce(m, order, tail, id);
    assert SentFor(t, next, Gathered(m, order) + tail, FullName(m[id]), after[FullName(m[id])]);
  }

  /** Sending all entries makes the tables agree, whatever their conditions were. */
  lemma SentAgrees(m: Entries, order: seq<nat>, t: FuncTable, next: nat, after: FuncTable)
    requires Lists(order, m.Keys) && Paired(m, t) && Sent(t, next, Gathered(m, order) + [], after)
    ensures Agree(m, after)
  {
    forall k ensures k in after <==> Named(m, k) { GatheredRequests(m, order, [], k); }
    forall id | id in m
      ensures FullName(m[id]) in after && after[FullName(m[id])].condition == m[id].condition
    {
      EntrySent(m, order, t, next, [], after, id);
    }
  }

  /** The function is new to the MI table and so is its name; or it is there, with this condition. */
  ghost predicate InsertHarmless(m: Entries, q: FuncRequest) {
    if Named(m, FullName(q))
    then forall id | id in m && FullName(m[id]) == FullName(q) :: m[id].condition == q.condition
    else forall id | id in m :: m[id].func != q.func
  }

  /** A function that the tables have: its condition changes in the engine only. */
  lemma TakenAgrees(m: Entries, order: seq<nat>, t: FuncTable, next: nat, q: FuncRequest, after: FuncTable)
    requires Lists(order, m.Keys) && Agree(m, t) && Named(m, FullName(q))
    requires Sent(t, next, Gathered(m, order) + [q], after)
    ensures Agree(m, after) <==> forall id | id in m && FullName(m[id]) == FullName(q) :: m[id].condition == q.condition
  {
    var reqs, k := Gathered(m, order) + [q], FullName(q);
    assert [q][0] == q;
    forall l ensures l in after <==> Named(m, l) { GatheredRequests(m, order, [q], l); }
    forall id | id in m && FullName(m[id]) != k ensures after[FullName(m[id])].condition == m[id].condition {
      EntrySent(m, order, t, next, [q], after, id);
    }
    assert LastFor(reqs, k, |order|);
    assert Paired(m, after);
  }

  lemma TakenKept(m: Entries, order: seq<nat>, t: FuncTable, next: nat, q: FuncRequest, after: FuncTable,
                  out: seq<Record<FuncDetail>>)
    requires Lists(order, m.Keys) && Agree(m, t) && Named(m, FullName(q))
    requires Sent(t, next, Gathered(m, order) + [q], after) && Answered(Gathered(m, order) + [q], after, out)
    ensures Recorded(m, out, q.func) == m
  {
    var i := FirstNamed(out, q.func);
    if i < |order| {
      EntryAnswers(m, order, t, next, q, after, out, i);
    } else if i == |order| {
      var id :| id in m && FullName(m[id]) == FullName(q);
      assert (Gathered(m, order) + [q])[i] == q;
    }
  }

  /** An entry answers under its own id and name. */
  lemma EntryAnswers(m: Entries, order: seq<nat>, t: FuncTable, next: nat, q: FuncRequest, after: FuncTable,
                     out: seq<Record<FuncDetail>>, i: nat)
    requires Lists(order, m.Keys) && Agree(m, t) && i < |order|
    requires Sent(t, next, Gathered(m, order) + [q], after) && Answered(Gathered(m, order) + [q], after, out)
    ensures order[i] in m && out[i].id == order[i] && out[i].detail.name == m[order[i]].func
  {
    assert order[i] in m;
    assert (Gathered(m, order) + [q])[i] == m[order[i]];
  }

  /** What is recorded for a new function: the new breakpoint, unless an entry has its name. */
  lemma NewRecorded(m: Entries, order: seq<nat>, t: FuncTable, next: nat, q: FuncRequest, after: FuncTable,
                    out: seq<Record<FuncDetail>>)
    requires Lists(order, m.Keys) && Agree(m, t) && IdsBelow(t, next) && !Named(m, FullName(q))
    requires Sent(t, next, Gathered(m, order) + [q], after) && Answered(Gathered(m, order) + [q], after, out)
    ensures FullName(q) in after && after[FullName(q)].id !in m
    ensures Recorded(m, out, q.func)
         == if forall id | id in m :: m[id].func != q.func then m[after[FullName(q)].id := q] else m
  {
    var n := |order|;
    assert (Gathered(m, order) + [q])[n] == q;
    NewDescribed(m, order, t, next, q, after);
    forall i | 0 <= i < n ensures order[i] in m && out[i].id == order[i] && out[i].detail.name == m[order[i]].func {
      EntryAnswers(m, order, t, next, q, after, out, i);
    }
    FirstRecorded(m, order, q, after[FullName(q)].id, out);
  }

  lemma FirstRecorded(m: Entries, order: seq<nat>, q: FuncRequest, newId: nat, out: seq<Record<FuncDetail>>)
    requires Lists(order, m.Keys) && |out| == |order| + 1 && newId !in m
    requires forall i | 0 <= i < |order| ::
               out[i].id == order[i] && order[i] in m && out[i].detail.name == m[order[i]].func
    requires out[|order|].id == newId && Answer(out[|order|]) == q
    ensures Recorded(m, out, q.func) == if forall id | id in m :: m[id].func != q.func then m[newId := q] else m
  {
    if id :| id in m && m[id].func == q.func {
      var i :| 0 <= i < |order| && order[i] == id;
      assert FirstNamed(out, q.func) <= i;
    } else {
      assert FirstNamed(out, q.func) == |order|;
    }
  }

  lemma NewDescribed(m: Entries, order: seq<nat>, t: FuncTable, next: nat, q: FuncRequest, after: FuncTable)
    requires Lists(order, m.Keys) && Agree(m, t) && IdsBelow(t, next) && !Named(m, FullName(q))
    requires Sent(t, next, Gathered(m, order) + [q], after)
    ensures FullName(q) in after && after[FullName(q)].id !in m && Describes(after[FullName(q)].detail, q)
    ensures after[FullName(q)].condition == q.condition
  {
    var reqs, n, k := Gathered(m, order) + [q], |order|, FullName(q);
    forall j | 0 <= j < n ensures FullName(reqs[j]) != k { assert order[j] in m && reqs[j] == m[order[j]]; }
    assert reqs[n] == q;
    assert FirstFor(reqs, k, n) && LastFor(reqs, k, n);
    assert Requested(reqs, k) && SentFor(t, next, reqs, k, after[k]);
  }

  /** A new function whose breakpoint is recorded. */
  lemma NewAgrees(m: Entries, order: seq<nat>, t: FuncTable, next: nat, q: FuncRequest, after: FuncTable)
    requires Lists(order, m.Keys) && Agree(m, t) && IdsBelow(t, next) && !Named(m, FullName(q))
    requires Sent(t, next, Gathered(m, order) + [q], after)
    ensures FullName(q) in after && Agree(m[after[FullName(q)].id := q], after)
  {
    NewDescribed(m, order, t, next, q, after);
    forall id | id in m
      ensures var k := FullName(m[id]);
        k in after && after[k].id == id && Describes(after[k].detail, m[id]) && after[k].condition == m[id].condition
    {
      assert !Requested([q], FullName(m[id])) by { assert Named(m, FullName(m[id])); }
      EntrySent(m, order, t, next, [q], after, id);
    }
    forall k | k in after && k != FullName(q) ensures Named(m, k) { GatheredRequests(m, order, [q], k); }
    NewPaired(m, q, after);
  }

  lemma NewPaired(m: Entries, q: FuncRequest, after: FuncTable)
    requires FullName(q) in after && after[FullName(q)].id !in m
    requires Describes(after[FullName(q)].detail, q) && after[FullName(q)].condition == q.condition
    requires forall id | id in m :: var k := FullName(m[id]);
      k in after && after[k].id == id && Describes(after[k].detail, m[id]) && after[k].condition == m[id].condition
    requires forall k | k in after && k != FullName(q) :: Named(m, k)
    ensures Agree(m[after[FullName(q)].id := q], after)
  {
    forall k | k in after && k != FullName(q) ensures after[k].id in m && FullName(m[after[k].id]) == k {
      var id :| id in m && FullName(m[id]) == k;
    }
  }

  /** After an insert the layers agree exactly when no entry has the function's name, or the
      function is already there with the same condition. */
  lemma InsertAgreesExact(st: Mi, q: FuncRequest, resolve: FuncResolver, order: seq<nat>, r: Mi)
    requires Valid(st.engine) && Agreeing(st)
    requires Lists(order, st.funcs.Keys) && Inserted(st, q, resolve, order, r)
    ensures Agreeing(r) <==> InsertHarmless(st.funcs, q)
  {
    var m, t, reqs := st.funcs, st.engine.funcs, Gathered(st.funcs, order) + [q];
    var after, out := r.engine.funcs, Answers(st.engine, reqs, resolve);
    SentBy(st.engine, reqs, resolve);
    AnsweredBy(st.engine, reqs, resolve);
    FuncsDistinct(st.engine);
    if Named(m, FullName(q)) {
      TakenAgrees(m, order, t, st.engine.next, q, after);
      TakenKept(m, order, t, st.engine.next, q, after, out);
    } else {
      NewRecorded(m, order, t, st.engine.next, q, after, out);
      NewAgrees(m, order, t, st.engine.next, q, after);
    }
  }

  /** What a command leaves as it is: the ids, names and conditions of every function. */
  ghost predicate SameFuncs(t: FuncTable, after: FuncTable) {
    && after.Keys == t.Keys
    && forall k | k in t :: && after[k].id == t[k].id && after[k].condition == t[k].condition
                            && after[k].detail
                              == t[k].detail.(bound := after[k].detail.bound, times := after[k].detail.times)
  }

  /** Engine operations that are not the MI layer's: lines, filters, modules and hits. */
  predicate Background(op: Op) {
    !op.SetFuncs?
  }

  lemma BackgroundFuncs(e: State, op: Op)
    requires Background(op)
    ensures SameFuncs(e.funcs, Apply(e, op).funcs)
  {
  }

  lemma ChangedPaired(m: Entries, t: FuncTable, id: nat, condition: string)
    requires Paired(m, t) && id in m
    ensures Paired(Changed(m, id, condition), t)
  {
    assert forall i | i in m :: FullName(Changed(m, id, condition)[i]) == FullName(m[i]);
  }

  lemma ConditionAgrees(st: Mi, id: nat, condition: string, resolve: FuncResolver, r: Mi)
    requires Agreeing(st) && ConditionStep(st, id, condition, resolve, r)
    ensures Agreeing(r)
  {
    if id in st.funcs {
      var m := Changed(st.funcs, id, condition);
      var order :| Lists(order, m.Keys) && r == Mi(m, Apply(st.engine, SetFuncs(Gathered(m, order), resolve)));
      assert Gathered(m, order) == Gathered(m, order) + [];
      SentBy(st.engine, Gathered(m, order), resolve);
      ChangedPaired(st.funcs, st.engine.funcs, id, condition);
      SentAgrees(m, order, st.engine.funcs, st.engine.next, r.engine.funcs);
    }
  }

  /** Sending a list leaves exactly the functions of the list. */
  lemma SentNames(m: Entries, order: seq<nat>, e: State, tail: seq<FuncRequest>, resolve: FuncResolver, k: string)
    requires Lists(order, m.Keys)
    ensures k in Apply(e, SetFuncs(Gathered(m, order) + tail, resolve)).funcs <==> Named(m, k) || Requested(tail, k)
  {
    var reqs := Gathered(m, order) + tail;
    SyncKeys(e.funcs, e.next, FuncAsks(reqs, resolve));
    AskedKeys(reqs, resolve, k);
    GatheredRequests(m, order, tail, k);
  }

  /** A delete that names recorded ids leaves exactly the other entries' functions in the engine,
      and the MI table as it is. */
  lemma DeleteExact(st: Mi, ids: set<nat>, resolve: FuncResolver, r: Mi)
    requires DeleteStep(st, ids, resolve, r)
    ensures r.funcs == st.funcs
    ensures st.funcs.Keys !! ids ==> r == st
    ensures !(st.funcs.Keys !! ids) ==> forall k :: k in r.engine.funcs <==> Named(st.funcs - ids, k)
  {
    if !(st.funcs.Keys !! ids) {
      var order :| Lists(order, st.funcs.Keys - ids)
                   && r == st.(engine := Apply(st.engine, SetFuncs(Gathered(st.funcs, order), resolve)));
      var rest := st.funcs - ids;
      assert Gathered(st.funcs, order) == Gathered(rest, order) + [];
      forall k ensures k in r.engine.funcs <==> Named(rest, k) { SentNames(rest, order, st.engine, [], resolve, k); }
    }
  }

  /** Tables that agree still agree after a delete exactly when it names no recorded id. */
  lemma DeleteAgreesExact(st: Mi, ids: set<nat>, resolve: FuncResolver, r: Mi)
    requires Agreeing(st) && DeleteStep(st, ids, resolve, r)
    ensures Agreeing(r) <==> st.funcs.Keys !! ids
  {
    DeleteExact(st, ids, resolve, r);
    if !(st.funcs.Keys !! ids) {
      var m := st.funcs;
      var id :| id in m && id in ids;
      assert !Named(m - ids, FullName(m[id]));
    }
  }

  // ---------------------------------------------------------------- what a command does

  /** Nothing changes but the functions. */
  ghost predicate OnlyFuncs(st: Mi, r: Mi) {
    r.engine.lines == st.engine.lines && r.engine.exceptions == st.engine.exceptions
  }

  lemma SetOnlyFuncs(e: State, reqs: seq<FuncRequest>, resolve: FuncResolver)
    ensures var r := Apply(e, SetFuncs(reqs, resolve)); r.lines == e.lines && r.exceptions == e.exceptions
  {
  }

  /** From agreeing tables, an entry whose function is not asked for again keeps its record. */
  lemma EntryKept(m: Entries, order: seq<nat>, t: FuncTable, next: nat, tail: seq<FuncRequest>, after: FuncTable,
                  id: nat)
    requires Lists(order, m.Keys) && Agree(m, t) && Sent(t, next, Gathered(m, order) + tail, after)
    requires id in m && !Requested(tail, FullName(m[id]))
    ensures FullName(m[id]) in after && after[FullName(m[id])] == t[FullName(m[id])]
  {
    EntrySent(m, order, t, next, tail, after, id);
    assert SentFor(t, next, Gathered(m, order) + tail, FullName(m[id]), after[FullName(m[id])]);
  }

  /** The functions of agreeing tables are those of the entries. */
  lemma NamesAre(m: Entries, t: FuncTable, k: string)
    requires Paired(m, t)
    ensures Named(m, k) <==> k in t
  {
    if k in t { assert FullName(m[t[k].id]) == k; }
  }

  /** Sending asks for the functions of the entries and those of the tail. */
  lemma KeysSent(m: Entries, order: seq<nat>, t: FuncTable, next: nat, tail: seq<FuncRequest>, after: FuncTable)
    requires Lists(order, m.Keys) && Paired(m, t) && Sent(t, next, Gathered(m, order) + tail, after)
    ensures forall k :: k in after <==> k in t || Requested(tail, k)
  {
    forall k ensures k in after <==> k in t || Requested(tail, k) {
      GatheredRequests(m, order, tail, k);
      NamesAre(m, t, k);
    }
  }

  lemma OneUpdated(t: FuncTable, k: string, b: Record<FuncDetail>, after: FuncTable)
    requires k in after && after[k] == b && forall l :: l in after <==> l in t || l == k
    requires forall l | l in t && l != k :: after[l] == t[l]
    ensures after == t[k := b]
  {
  }

  lemma ConditionTable(m: Entries, order: seq<nat>, t: FuncTable, next: nat, id: nat, condition: string,
                       after: FuncTable)
    requires Agree(m, t) && id in m && Lists(order, m.Keys)
    requires Sent(t, next, Gathered(Changed(m, id, condition), order) + [], after)
    ensures var k := FullName(m[id]); k in t && after == t[k := t[k].(condition := condition)]
  {
    var k := FullName(m[id]);
    assert (forall l :: l in after <==> l in t) && Paired(Changed(m, id, condition), t) by {
      ChangedPaired(m, t, id, condition);
      KeysSent(Changed(m, id, condition), order, t, next, [], after);
    }
    OthersUnchanged(m, order, t, next, id, condition, after);
    ChangedSent(m, order, t, next, id, condition, after, id);
    OneUpdated(t, k, t[k].(condition := condition), after);
  }

  lemma OthersUnchanged(m: Entries, order: seq<nat>, t: FuncTable, next: nat, id: nat, condition: string,
                        after: FuncTable)
    requires Agree(m, t) && id in m && Lists(order, m.Keys) && Paired(Changed(m, id, condition), t)
    requires Sent(t, next, Gathered(Changed(m, id, condition), order) + [], after)
    ensures forall l | l in t && l != FullName(m[id]) :: l in after && after[l] == t[l]
  {
    forall l | l in t && l != FullName(m[id]) ensures l in after && after[l] == t[l] {
      assert FullName(m[t[l].id]) == l;
      ChangedSent(m, order, t, next, id, condition, after, t[l].id);
    }
  }

  lemma ChangedSent(m: Entries, order: seq<nat>, t: FuncTable, next: nat, id: nat, condition: string,
                    after: FuncTable, i: nat)
    requires Agree(m, t) && id in m && i in m && Lists(order, m.Keys) && Paired(Changed(m, id, condition), t)
    requires Sent(t, next, Gathered(Changed(m, id, condition), order) + [], after)
    ensures var l := FullName(m[i]);
      l in after && l in t && after[l] == t[l].(condition := if i == id then condition else t[l].condition)
  {
    var c, l := Changed(m, id, condition), FullName(m[i]);
    EntrySent(c, order, t, next, [], after, i);
    assert FullName(c[i]) == l;
    assert SentFor(t, next, Gathered(c, order) + [], l, after[l]);
  }

  /** From agreeing layers, a condition change gives the entry with the id, and the engine's record
      with the id, exactly this condition, and changes nothing else; without such an entry it changes
      nothing at all. */
  lemma ConditionExact(st: Mi, id: nat, condition: string, resolve: FuncResolver, r: Mi)
    requires Agreeing(st) && ConditionStep(st, id, condition, resolve, r)
    ensures id !in st.funcs ==> r == st
    ensures id in st.funcs ==>
      var q, t := st.funcs[id], st.engine.funcs;
      && OnlyFuncs(st, r) && FullName(q) in t
      && r.funcs == st.funcs[id := FuncRequest(q.mod, q.func, q.params, condition)]
      && r.engine.funcs == t[FullName(q) := t[FullName(q)].(condition := condition)]
  {
    if id in st.funcs {
      var m := Changed(st.funcs, id, condition);
      var order :| Lists(order, m.Keys) && r == Mi(m, Apply(st.engine, SetFuncs(Gathered(m, order), resolve)));
      assert Gathered(m, order) == Gathered(m, order) + [];
      SetOnlyFuncs(st.engine, Gathered(m, order), resolve);
      SentBy(st.engine, Gathered(m, order), resolve);
      ConditionTable(st.funcs, order, st.engine.funcs, st.engine.next, id, condition, r.engine.funcs);
    }
  }

  /** From agreeing layers, a delete takes exactly the records with these ids out of the engine, and
      changes nothing else. */
  lemma DeleteRemoves(st: Mi, ids: set<nat>, resolve: FuncResolver, r: Mi)
    requires Agreeing(st) && DeleteStep(st, ids, resolve, r)
    ensures r.funcs == st.funcs && OnlyFuncs(st, r)
    ensures var t := st.engine.funcs; r.engine.funcs == map k | k in t && t[k].id !in ids :: t[k]
  {
    var m, t := st.funcs, st.engine.funcs;
    if m.Keys !! ids {
      assert forall k | k in t :: t[k].id in m.Keys;
    } else {
      var order :| Lists(order, m.Keys - ids)
                   && r == st.(engine := Apply(st.engine, SetFuncs(Gathered(m, order), resolve)));
      assert Gathered(m, order) == Gathered(m - ids, order) + [];
      SetOnlyFuncs(st.engine, Gathered(m, order), resolve);
      SentBy(st.engine, Gathered(m, order), resolve);
      RestKept(m, order, t, ids, st.engine.next, r.engine.funcs);
    }
  }

  lemma RestKept(m: Entries, order: seq<nat>, t: FuncTable, ids: set<nat>, next: nat, after: FuncTable)
    requires Agree(m, t) && Lists(order, m.Keys - ids) && Sent(t, next, Gathered(m - ids, order) + [], after)
    ensures after == map k | k in t && t[k].id !in ids :: t[k]
  {
    var rest := m - ids;
    forall k ensures k in after <==> k in t && t[k].id !in ids {
      GatheredRequests(rest, order, [], k);
      if k in t && t[k].id !in ids { assert FullName(rest[t[k].id]) == k; }
    }
    forall k | k in after ensures after[k] == t[k] {
      var id := t[k].id;
      assert FullName(rest[id]) == k;
      var i := GatheredOnce(rest, order, [], id);
      assert SentFor(t, next, Gathered(rest, order) + [], k, after[k]);
    }
  }

  /** From agreeing layers, an insert of a function that is there gives the engine's record this
      condition and leaves the MI table as it is; a new function gets one new record, with a new id,
      its names, this condition and what the symbols say, which the MI table records exactly when no
      entry has the bare name.  Nothing else changes. */
  lemma InsertExact(st: Mi, q: FuncRequest, resolve: FuncResolver, r: Mi)
    requires Valid(st.engine) && Agreeing(st) && InsertStep(st, q, resolve, r)
    ensures OnlyFuncs(st, r) && FullName(q) in r.engine.funcs
    ensures var k, t, after := FullName(q), st.engine.funcs, r.engine.funcs;
      if k in t then r.funcs == st.funcs && after == t[k := t[k].(condition := q.condition)]
      else
        && after[k].id >= st.engine.next
        && after == t[k := Record(after[k].id, q.condition,
                                  FuncDetail(q.mod, q.func, q.params, 0, true, resolve(q.mod, q.func)))]
        && r.funcs == if forall id | id in st.funcs :: st.funcs[id].func != q.func then st.funcs[after[k].id := q]
                      else st.funcs
  {
    var order :| Lists(order, st.funcs.Keys) && Inserted(st, q, resolve, order, r);
    var m, t, reqs, after := st.funcs, st.engine.funcs, Gathered(st.funcs, order) + [q], r.engine.funcs;
    var out := Answers(st.engine, reqs, resolve);
    SetOnlyFuncs(st.engine, reqs, resolve);
    SentBy(st.engine, reqs, resolve);
    AnsweredBy(st.engine, reqs, resolve);
    assert IdsBelow(t, st.engine.next) by { FuncsDistinct(st.engine); }
    InsertTable(m, order, t, st.engine.next, q, after);
    if Named(m, FullName(q)) {
      TakenKept(m, order, t, st.engine.next, q, after, out);
    } else {
      NewRecorded(m, order, t, st.engine.next, q, after, out);
      NewDetail(st, order, q, resolve);
    }
  }

  lemma InsertTable(m: Entries, order: seq<nat>, t: FuncTable, next: nat, q: FuncRequest, after: FuncTable)
    requires Agree(m, t) && Lists(order, m.Keys) && Sent(t, next, Gathered(m, order) + [q], after)
    ensures var k := FullName(q);
      && (Named(m, k) <==> k in t)
      && k in after && after[k].condition == q.condition
      && (k in t ==> after == t[k := t[k].(condition := q.condition)])
      && (k !in t ==> after[k].id >= next && after == t[k := after[k]])
  {
    var k := FullName(q);
    NamesAre(m, t, k);
    assert forall l :: l in after <==> l in t || l == k by {
      assert [q][0] == q;
      KeysSent(m, order, t, next, [q], after);
    }
    LastSent(m, order, t, next, q, after);
    OthersSent(m, order, t, next, q, after);
    OneUpdated(t, k, after[k], after);
  }

  lemma OthersSent(m: Entries, order: seq<nat>, t: FuncTable, next: nat, q: FuncRequest, after: FuncTable)
    requires Agree(m, t) && Lists(order, m.Keys) && Sent(t, next, Gathered(m, order) + [q], after)
    ensures forall l | l in t && l != FullName(q) :: l in after && after[l] == t[l]
  {
    forall l | l in t && l != FullName(q) ensures l in after && after[l] == t[l] {
      assert FullName(m[t[l].id]) == l && !Requested([q], l);
      EntryKept(m, order, t, next, [q], after, t[l].id);
    }
  }

  lemma LastSent(m: Entries, order: seq<nat>, t: FuncTable, next: nat, q: FuncRequest, after: FuncTable)
    requires Lists(order, m.Keys) && Sent(t, next, Gathered(m, order) + [q], after)
    ensures var k := FullName(q);
      && k in after && after[k].condition == q.condition
      && (if k in t then after[k] == t[k].(condition := q.condition) else after[k].id >= next)
  {
    var reqs, k := Gathered(m, order) + [q], FullName(q);
    assert reqs[|order|] == q;
    assert LastFor(reqs, k, |order|) && Requested(reqs, k);
    assert SentFor(t, next, reqs, k, after[k]);
  }

  lemma NewDetail(st: Mi, order: seq<nat>, q: FuncRequest, resolve: FuncResolver)
    requires Lists(order, st.funcs.Keys) && Agreeing(st) && !Named(st.funcs, FullName(q))
    ensures var after := Apply(st.engine, SetFuncs(Gathered(st.funcs, order) + [q], resolve)).funcs;
      && FullName(q) in after
      && after[FullName(q)].detail == FuncDetail(q.mod, q.func, q.params, 0, true, resolve(q.mod, q.func))
  {
    var reqs, k, n := Gathered(st.funcs, order) + [q], FullName(q), |order|;
    var r := Apply(st.engine, SetFuncs(reqs, resolve));
    SetFuncsReplaces(st.engine, reqs, resolve);
    forall j | 0 <= j < n ensures FullName(reqs[j]) != k {
      assert order[j] in st.funcs && reqs[j] == st.funcs[order[j]];
    }
    assert reqs[n] == q;
    assert FirstFor(reqs, k, n);
    assert FuncReplaced(st.engine, reqs, resolve, k, r.funcs[k], r.next);
  }

  // ---------------------------------------------------------------- runs

  datatype Command =
    | Insert(q: FuncRequest)
    | Condition(id: nat, condition: string)
    | Delete(ids: set<nat>)
    | Engine(op: Op)

  ghost predicate Step(st: Mi, c: Command, resolve: FuncResolver, r: Mi) {
    match c
    case Insert(q) => InsertStep(st, q, resolve, r)
    case Condition(id, condition) => ConditionStep(st, id, condition, resolve, r)
    case Delete(ids) => DeleteStep(st, ids, resolve, r)
    case Engine(op) => Background(op) && r == st.(engine := Apply(st.engine, op))
  }

  const MI_START := Mi(map[], START)

  ghost predicate StepIn(states: seq<Mi>, commands: seq<Command>, symbols: seq<FuncResolver>, i: nat)
    requires |states| == |commands| + 1 && |symbols| == |commands| && i < |commands|
  {
    Step(states[i], commands[i], symbols[i], states[i + 1])
  }

  /** A run: the states before and after each command, and what symbols said during it. */
  ghost predicate IsRun(states: seq<Mi>, commands: seq<Command>, symbols: seq<FuncResolver>) {
    && |states| == |commands| + 1 && |symbols| == |commands|
    && states[0] == MI_START
    && forall i | 0 <= i < |commands| :: StepIn(states, commands, symbols, i)
  }

  ghost predicate Harmless(st: Mi, c: Command) {
    match c
    case Insert(q) => InsertHarmless(st.funcs, q)
    case Condition(_, _) => true
    case Delete(ids) => st.funcs.Keys !! ids
    case Engine(_) => true
  }

  lemma StepKept(st: Mi, c: Command, resolve: FuncResolver, r: Mi)
    requires Valid(st.engine) && Step(st, c, resolve, r)
    ensures Kept(st.engine, r.engine)
  {
    if c.Engine? {
      ApplyKeeps(st.engine, c.op);
    } else if r.engine != st.engine {
      var reqs :| r.engine == Apply(st.engine, SetFuncs(reqs, resolve));
      SetFuncsKeeps(st.engine, reqs, resolve);
    }
  }

  /** One command, from layers that agree. */
  lemma StepAgreesExact(st: Mi, c: Command, resolve: FuncResolver, r: Mi)
    requires Valid(st.engine) && Agreeing(st) && Step(st, c, resolve, r)
    ensures Agreeing(r) <==> Harmless(st, c)
  {
    match c
    case Insert(q) =>
      var order :| Lists(order, st.funcs.Keys) && Inserted(st, q, resolve, order, r);
      InsertAgreesExact(st, q, resolve, order, r);
    case Condition(id, condition) => ConditionAgrees(st, id, condition, resolve, r);
    case Delete(ids) => DeleteAgreesExact(st, ids, resolve, r);
    case Engine(op) => BackgroundFuncs(st.engine, op);
  }

  lemma StepAt(states: seq<Mi>, commands: seq<Command>, symbols: seq<FuncResolver>, i: nat)
    requires IsRun(states, commands, symbols) && i < |commands|
    ensures Step(states[i], commands[i], symbols[i], states[i + 1])
  {
    assert StepIn(states, commands, symbols, i);
  }

  lemma {:induction false} RunValid(states: seq<Mi>, commands: seq<Command>, symbols: seq<FuncResolver>, k: nat)
    requires IsRun(states, commands, symbols) && k <= |commands|
    ensures Valid(states[k].engine)
  {
    if k == 0 {
      StartValid();
    } else {
      RunValid(states, commands, symbols, k - 1);
      StepAt(states, commands, symbols, k - 1);
      StepKept(states[k - 1], commands[k - 1], symbols[k - 1], states[k]);
    }
  }

  lemma StepOfRun(states: seq<Mi>, commands: seq<Command>, symbols: seq<FuncResolver>, i: nat)
    requires IsRun(states, commands, symbols) && i < |commands| && Agreeing(states[i])
    ensures Agreeing(states[i + 1]) <==> Harmless(states[i], commands[i])
  {
    RunValid(states, commands, symbols, i);
    StepAt(states, commands, symbols, i);
    StepAgreesExact(states[i], commands[i], symbols[i], states[i + 1]);
  }

  lemma {:induction false} HarmlessAgrees(states: seq<Mi>, commands: seq<Command>, symbols: seq<FuncResolver>, k: nat)
    requires IsRun(states, commands, symbols) && k <= |commands|
    requires forall i | 0 <= i < k :: Harmless(states[i], commands[i])
    ensures Agreeing(states[k])
  {
    if k > 0 {
      HarmlessAgrees(states, commands, symbols, k - 1);
      StepOfRun(states, commands, symbols, k - 1);
    }
  }

  /** Over every run of function commands and anything else the engine does in between: the two
      layers describe the same function breakpoints after every command, exactly when every
      command is harmless. */
  lemma RunAgreesExact(states: seq<Mi>, commands: seq<Command>, symbols: seq<FuncResolver>)
    requires IsRun(states, commands, symbols)
    ensures (forall i | 0 <= i < |states| :: Agreeing(states[i]))
       <==> (forall i | 0 <= i < |commands| :: Harmless(states[i], commands[i]))
  {
    if forall i | 0 <= i < |commands| :: Harmless(states[i], commands[i]) {
      forall i | 0 <= i < |states| ensures Agreeing(states[i]) { HarmlessAgrees(states, commands, symbols, i); }
    }
    if forall i | 0 <= i < |states| :: Agreeing(states[i]) {
      forall i | 0 <= i < |commands| ensures Harmless(states[i], commands[i]) {
        StepOfRun(states, commands, symbols, i);
      }
    }
  }

  // ---------------------------------------------------------------- a breakpoint that is dropped

  /** Every insert can happen. */
  lemma SomeInsert(st: Mi, q: FuncRequest, resolve: FuncResolver) returns (r: Mi)
    ensures InsertStep(st, q, resolve, r)
  {
    var order := SomeOrder(st.funcs.Keys);
    var reqs := Gathered(st.funcs, order) + [q];
    r := Mi(Recorded(st.funcs, Answers(st.engine, reqs, resolve), q.func), Apply(st.engine, SetFuncs(reqs, resolve)));
    assert Inserted(st, q, resolve, order, r);
  }

  /** After an insert the engine has the functions of the MI table before it, and the new one:
      whatever the MI table did not record is gone. */
  lemma InsertNames(st: Mi, q: FuncRequest, resolve: FuncResolver, r: Mi)
    requires InsertStep(st, q, resolve, r)
    ensures forall k :: k in r.engine.funcs <==> Named(st.funcs, k) || k == FullName(q)
  {
    var order :| Lists(order, st.funcs.Keys) && Inserted(st, q, resolve, order, r);
    forall k ensures k in r.engine.funcs <==> Named(st.funcs, k) || k == FullName(q) {
      SentNames(st.funcs, order, st.engine, [q], resolve, k);
      assert [q][0] == q;
    }
  }

  /** A new function of a name that an entry has is not recorded. */
  lemma InsertLost(st: Mi, q: FuncRequest, resolve: FuncResolver, r: Mi)
    requires Valid(st.engine) && Agreeing(st) && InsertStep(st, q, resolve, r)
    requires !Named(st.funcs, FullName(q)) && exists id :: id in st.funcs && st.funcs[id].func == q.func
    ensures r.funcs == st.funcs
  {
    var order :| Lists(order, st.funcs.Keys) && Inserted(st, q, resolve, order, r);
    var reqs := Gathered(st.funcs, order) + [q];
    SentBy(st.engine, reqs, resolve);
    AnsweredBy(st.engine, reqs, resolve);
    FuncsDistinct(st.engine);
    NewRecorded(st.funcs, order, st.engine.funcs, st.engine.next, q, r.engine.funcs, Answers(st.engine, reqs, resolve));
  }

  /** The first insert is recorded. */
  lemma FirstInsert(q: FuncRequest, resolve: FuncResolver, r: Mi)
    requires InsertStep(MI_START, q, resolve, r)
    ensures Valid(r.engine) && Agreeing(r) && FullName(q) in r.engine.funcs
    ensures exists id :: id in r.funcs && r.funcs[id].func == q.func
  {
    StartValid();
    StepKept(MI_START, Insert(q), resolve, r);
    StepAgreesExact(MI_START, Insert(q), resolve, r);
    InsertNames(MI_START, q, resolve, r);
    FirstEntry(q, resolve, r);
  }

  lemma FirstEntry(q: FuncRequest, resolve: FuncResolver, r: Mi)
    requires InsertStep(MI_START, q, resolve, r)
    ensures exists id :: id in r.funcs && r.funcs[id] == q
  {
    var order :| Lists(order, MI_START.funcs.Keys) && Inserted(MI_START, q, resolve, order, r);
    ListsCount(order, MI_START.funcs.Keys);
    var reqs := Gathered(MI_START.funcs, order) + [q];
    StartValid();
    SentBy(START, reqs, resolve);
    AnsweredBy(START, reqs, resolve);
    FuncsDistinct(START);
    NewRecorded(MI_START.funcs, order, START.funcs, START.next, q, r.engine.funcs, Answers(START, reqs, resolve));
  }

  lemma SecondInsert(a: FuncRequest, b: FuncRequest, resolve: FuncResolver, s1: Mi, s2: Mi)
    requires a.func == b.func && FullName(a) != FullName(b)
    requires InsertStep(MI_START, a, resolve, s1) && InsertStep(s1, b, resolve, s2)
    ensures s2.funcs == s1.funcs && forall l :: Named(s1.funcs, l) <==> l == FullName(a)
    ensures FullName(a) in s2.engine.funcs && FullName(b) in s2.engine.funcs
  {
    FirstInsert(a, resolve, s1);
    InsertNames(MI_START, a, resolve, s1);
    OnlyName(s1, FullName(a));
    InsertLost(s1, b, resolve, s2);
    InsertNames(s1, b, resolve, s2);
  }

  lemma RunNext(states: seq<Mi>, commands: seq<Command>, symbols: seq<FuncResolver>, c: Command,
                resolve: FuncResolver, r: Mi)
    requires IsRun(states, commands, symbols) && Step(states[|commands|], c, resolve, r)
    ensures IsRun(states + [r], commands + [c], symbols + [resolve])
  {
    var n, states', commands', symbols' := |commands|, states + [r], commands + [c], symbols + [resolve];
    forall i | 0 <= i <= n ensures StepIn(states', commands', symbols', i) {
      if i < n { assert StepIn(states, commands, symbols, i); }
    }
  }

  lemma RunOfTwo(c1: Command, c2: Command, a: Mi, b: Mi, resolve: FuncResolver)
    requires Step(MI_START, c1, resolve, a) && Step(a, c2, resolve, b)
    ensures IsRun([MI_START, a, b], [c1, c2], [resolve, resolve])
  {
    RunNext([MI_START], [], [], c1, resolve, a);
    assert [MI_START] + [a] == [MI_START, a] && [] + [c1] == [c1] && [] + [resolve] == [resolve];
    RunNext([MI_START, a], [c1], [resolve], c2, resolve, b);
    assert [MI_START, a] + [b] == [MI_START, a, b] && [c1] + [c2] == [c1, c2]
      && [resolve] + [resolve] == [resolve, resolve];
  }

  lemma RunOfThree(c1: Command, c2: Command, c3: Command, a: Mi, b: Mi, c: Mi, resolve: FuncResolver)
    requires Step(MI_START, c1, resolve, a) && Step(a, c2, resolve, b) && Step(b, c3, resolve, c)
    ensures IsRun([MI_START, a, b, c], [c1, c2, c3], [resolve, resolve, resolve])
  {
    RunOfTwo(c1, c2, a, b, resolve);
    RunNext([MI_START, a, b], [c1, c2], [resolve, resolve], c3, resolve, c);
    assert [MI_START, a, b] + [c] == [MI_START, a, b, c] && [c1, c2] + [c3] == [c1, c2, c3];
    assert [resolve, resolve] + [resolve] == [resolve, resolve, resolve];
  }

  /** Breakpoints for one name in two modules: the engine has both and the MI table one, and any
      third insert drops the second breakpoint from the engine. */
  lemma SecondModuleLost(name: string, other: FuncRequest, resolve: FuncResolver) returns (states: seq<Mi>)
    requires FullName(other) != "B!" + name
    ensures var a, b := FuncRequest("A", name, "", ""), FuncRequest("B", name, "", "");
      && IsRun(states, [Insert(a), Insert(b), Insert(other)], [resolve, resolve, resolve])
      && FullName(a) in states[2].engine.funcs && FullName(b) in states[2].engine.funcs
      && states[2].funcs == states[1].funcs && FullName(b) !in states[3].engine.funcs
  {
    var a, b := FuncRequest("A", name, "", ""), FuncRequest("B", name, "", "");
    TwoNames(name);
    var s1 := SomeInsert(MI_START, a, resolve);
    var s2 := SomeInsert(s1, b, resolve);
    var s3 := SomeInsert(s2, other, resolve);
    SecondInsert(a, b, resolve, s1, s2);
    InsertNames(s2, other, resolve, s3);
    RunOfThree(Insert(a), Insert(b), Insert(other), s1, s2, s3, resolve);
    states := [MI_START, s1, s2, s3];
  }

  lemma TwoNames(name: string)
    ensures FullName(FuncRequest("A", name, "", "")) == "A!" + name
    ensures FullName(FuncRequest("B", name, "", "")) == "B!" + name
    ensures "A!" + name != "B!" + name
  {
    assert ("A!" + name)[0] != ("B!" + name)[0];
  }

  lemma OnlyName(st: Mi, k: string)
    requires Agreeing(st) && k in st.engine.funcs && forall l :: l in st.engine.funcs ==> l == k
    ensures forall l :: Named(st.funcs, l) <==> l == k
  {
    assert FullName(st.funcs[st.engine.funcs[k].id]) == k;
  }
}
