/**
 The common shape of SetBreakpoints and SetFunctionBreakpoints: a table of records is
 brought in line with a list of requests.  Records that are not requested go, requested
 ones stay and take the requested condition, and missing ones are made with fresh ids.
 */
module Tables {

  /** A stored breakpoint: `detail` is everything but its id and condition. */
  datatype Record<D> = Record(id: nat, condition: string, detail: D)

  /** A request for a key; `initial` is the detail of the record to make when there is none. */
  datatype Ask<K, D> = Ask(key: K, condition: string, initial: D)

  datatype Synced<!K, D> = Synced(table: map<K, Record<D>>, next: nat, out: seq<Record<D>>)

  function Keys<K(==), D>(asks: seq<Ask<K, D>>): set<K> {
    set i | 0 <= i < |asks| :: asks[i].key
  }

  function Retained<K(==), D>(table: map<K, Record<D>>, keys: set<K>): map<K, Record<D>> {
    map k | k in table && k in keys :: table[k]
  }

  /** The body of the export loop. */
  function ExportOne<K(==), D>(s: Synced<K, D>, a: Ask<K, D>): Synced<K, D> {
    if a.key in s.table then
      var r := s.table[a.key].(condition := a.condition);
      Synced(s.table[a.key := r], s.next, s.out + [r])
    else
      var r := Record(s.next, a.condition, a.initial);
      Synced(s.table[a.key := r], s.next + 1, s.out + [r])
  }

  function Export<K(==), D>(table: map<K, Record<D>>, next: nat, asks: seq<Ask<K, D>>): Synced<K, D> {
    if asks == [] then Synced(table, next, [])
    else ExportOne(Export(table, next, asks[..|asks| - 1]), asks[|asks| - 1])
  }

  function Sync<K(==), D>(table: map<K, Record<D>>, next: nat, asks: seq<Ask<K, D>>): Synced<K, D> {
    Export(Retained(table, Keys(asks)), next, asks)
  }

  /** One turn of the export loop. */
  lemma ExportUpTo<K, D>(table: map<K, Record<D>>, next: nat, asks: seq<Ask<K, D>>, i: nat)
    requires i < |asks|
    ensures Export(table, next, asks[..i + 1]) == ExportOne(Export(table, next, asks[..i]), asks[i])
  {
    assert asks[..i + 1][..i] == asks[..i];
  }

  // ---------------------------------------------------------------- what it achieves

  /** The position of the first and of the last request for a key. */
  function FirstAsk<K(==), D>(asks: seq<Ask<K, D>>, key: K): (i: nat)
    requires key in Keys(asks)
    ensures i < |asks| && asks[i].key == key && forall j | 0 <= j < i :: asks[j].key != key
  {
    var n := |asks| - 1;
    if key in Keys(asks[..n]) then FirstAsk(asks[..n], key) else n
  }

  function LastAsk<K(==), D>(asks: seq<Ask<K, D>>, key: K): (i: nat)
    requires key in Keys(asks)
    ensures i < |asks| && asks[i].key == key && forall j | i < j < |asks| :: asks[j].key != key
  {
    var n := |asks| - 1;
    if asks[n].key == key then n else LastAsk(asks[..n], key)
  }

  /** No two records of the table have the same id. */
  ghost predicate DistinctIds<K, D>(table: map<K, Record<D>>) {
    forall k, m | k in table && m in table && table[k].id == table[m].id :: k == m
  }

  ghost predicate IdsBelow<K, D>(table: map<K, Record<D>>, next: nat) {
    forall k | k in table :: table[k].id < next
  }

  /** The table afterwards: exactly the requested keys; kept records keep their id and
      detail, new ones have the first request's detail and an id that was not given out
      before; every condition is the last one requested. */
  ghost predicate Replaces<K, D>(table: map<K, Record<D>>, next: nat, asks: seq<Ask<K, D>>, s: Synced<K, D>) {
    && s.table.Keys == Keys(asks)
    && (forall k | k in s.table :: s.table[k].condition == asks[LastAsk(asks, k)].condition)
    && (forall k | k in s.table && k in table :: s.table[k].id == table[k].id && s.table[k].detail == table[k].detail)
    && (forall k | k in s.table && k !in table ::
          next <= s.table[k].id < s.next && s.table[k].detail == asks[FirstAsk(asks, k)].initial)
  }

  /** The exported records: one for each request, in order, with the id, key detail and
      condition of that request. */
  ghost predicate Answers<K, D>(asks: seq<Ask<K, D>>, s: Synced<K, D>) {
    && |s.out| == |asks|
    && forall i | 0 <= i < |asks| ::
         && asks[i].key in s.table
         && s.out[i] == s.table[asks[i].key].(condition := asks[i].condition)
  }

  lemma {:induction false} KeysSnoc<K, D>(asks: seq<Ask<K, D>>)
    requires asks != []
    ensures Keys(asks) == Keys(asks[..|asks| - 1]) + {asks[|asks| - 1].key}
  {
    var n := |asks| - 1;
    forall k | k in Keys(asks) ensures k in Keys(asks[..n]) + {asks[n].key} {
      var i :| 0 <= i < |asks| && asks[i].key == k;
      if i < n { assert asks[..n][i].key == k; }
    }
    forall k | k in Keys(asks[..n]) ensures k in Keys(asks) {
      var i :| 0 <= i < n && asks[..n][i].key == k;
      assert asks[i].key == k;
    }
  }

  lemma {:induction false} ExportKeys<K, D>(table: map<K, Record<D>>, next: nat, asks: seq<Ask<K, D>>)
    ensures var s := Export(table, next, asks);
      s.table.Keys == table.Keys + Keys(asks) && s.next >= next
  {
    if asks != [] {
      KeysSnoc(asks);
      ExportKeys(table, next, asks[..|asks| - 1]);
    }
  }

  /** What the loop does to the record of a kept key. */
  lemma {:induction false} ExportKept<K, D>(table: map<K, Record<D>>, next: nat, asks: seq<Ask<K, D>>, k: K)
    requires k in table
    ensures var s := Export(table, next, asks);
      && k in s.table && s.table[k].id == table[k].id && s.table[k].detail == table[k].detail
      && s.table[k].condition == if k in Keys(asks) then asks[LastAsk(asks, k)].condition else table[k].condition
  {
    if asks != [] {
      KeysSnoc(asks);
      ExportKept(table, next, asks[..|asks| - 1], k);
    }
  }

  /** What the loop does to the record of a new key. */
  lemma {:induction false} ExportNew<K, D>(table: map<K, Record<D>>, next: nat, asks: seq<Ask<K, D>>, k: K)
    requires k !in table && k in Keys(asks)
    ensures var s := Export(table, next, asks);
      && k in s.table && next <= s.table[k].id < s.next
      && s.table[k].detail == asks[FirstAsk(asks, k)].initial
      && s.table[k].condition == asks[LastAsk(asks, k)].condition
  {
    var init := asks[..|asks| - 1];
    KeysSnoc(asks);
    ExportKeys(table, next, init);
    if k in Keys(init) {
      ExportNew(table, next, init, k);
    }
  }

  lemma {:induction false} ExportAnswers<K, D>(table: map<K, Record<D>>, next: nat, asks: seq<Ask<K, D>>)
    ensures Answers(asks, Export(table, next, asks))
  {
    if asks != [] {
      var n := |asks| - 1;
      var before := Export(table, next, asks[..n]);
      ExportAnswers(table, next, asks[..n]);
      forall i | 0 <= i < n
        ensures asks[i].key in before.table
        ensures before.out[i] == before.table[asks[i].key].(condition := asks[i].condition)
      {
        assert asks[..n][i] == asks[i];
      }
    }
  }

  lemma {:induction false} ExportDistinct<K, D>(table: map<K, Record<D>>, next: nat, asks: seq<Ask<K, D>>)
    requires DistinctIds(table) && IdsBelow(table, next)
    ensures var s := Export(table, next, asks); DistinctIds(s.table) && IdsBelow(s.table, s.next)
  {
    if asks != [] { ExportDistinct(table, next, asks[..|asks| - 1]); }
  }

  lemma {:induction false} ExportCounts<K, D>(table: map<K, Record<D>>, next: nat, asks: seq<Ask<K, D>>)
    ensures var s := Export(table, next, asks); s.next - next == |s.table| - |table|
  {
    if asks != [] {
      ExportCounts(table, next, asks[..|asks| - 1]);
      var before, a := Export(table, next, asks[..|asks| - 1]), asks[|asks| - 1];
      if a.key !in before.table {
        assert before.table[a.key := Record(before.next, a.condition, a.initial)].Keys == before.table.Keys + {a.key};
      } else {
        assert before.table[a.key := before.table[a.key].(condition := a.condition)].Keys == before.table.Keys;
      }
    }
  }

  /** One key of the replaced table. */
  lemma SyncAt<K, D>(table: map<K, Record<D>>, next: nat, asks: seq<Ask<K, D>>, k: K)
    requires k in Sync(table, next, asks).table
    ensures k in Keys(asks)
    ensures var s := Sync(table, next, asks);
      && s.table[k].condition == asks[LastAsk(asks, k)].condition
      && (k in table ==> s.table[k].id == table[k].id && s.table[k].detail == table[k].detail)
      && (k !in table ==> next <= s.table[k].id < s.next && s.table[k].detail == asks[FirstAsk(asks, k)].initial)
  {
    var kept := Retained(table, Keys(asks));
    ExportKeys(kept, next, asks);
    if k in table { ExportKept(kept, next, asks, k); } else { ExportNew(kept, next, asks, k); }
  }

  lemma SyncKeys<K, D>(table: map<K, Record<D>>, next: nat, asks: seq<Ask<K, D>>)
    ensures Sync(table, next, asks).table.Keys == Keys(asks)
  {
    ExportKeys(Retained(table, Keys(asks)), next, asks);
    assert Retained(table, Keys(asks)).Keys <= Keys(asks);
  }

  lemma SyncAnswers<K, D>(table: map<K, Record<D>>, next: nat, asks: seq<Ask<K, D>>)
    ensures Answers(asks, Sync(table, next, asks))
  {
    ExportAnswers(Retained(table, Keys(asks)), next, asks);
  }

  /** Bringing a table in line with requests replaces it by the requested one. */
  lemma SyncReplaces<K, D>(table: map<K, Record<D>>, next: nat, asks: seq<Ask<K, D>>)
    ensures Replaces(table, next, asks, Sync(table, next, asks))
    ensures Answers(asks, Sync(table, next, asks))
  {
    var s := Sync(table, next, asks);
    SyncKeys(table, next, asks);
    SyncAnswers(table, next, asks);
    forall k | k in s.table
      ensures s.table[k].condition == asks[LastAsk(asks, k)].condition
      ensures k in table ==> s.table[k].id == table[k].id && s.table[k].detail == table[k].detail
      ensures k !in table ==> next <= s.table[k].id < s.next && s.table[k].detail == asks[FirstAsk(asks, k)].initial
    {
      SyncAt(table, next, asks, k);
    }
  }

  /** Exactly as many ids are given out as keys are new. */
  lemma SyncCounts<K, D>(table: map<K, Record<D>>, next: nat, asks: seq<Ask<K, D>>)
    ensures Sync(table, next, asks).next == next + |Keys(asks) - table.Keys|
  {
    var kept, s := Retained(table, Keys(asks)), Sync(table, next, asks);
    ExportKeys(kept, next, asks);
    ExportCounts(kept, next, asks);
    assert s.table.Keys == Keys(asks) == kept.Keys + (Keys(asks) - table.Keys);
    assert |s.table| == |s.table.Keys| && |kept| == |kept.Keys|;
  }

  lemma SyncDistinct<K, D>(table: map<K, Record<D>>, next: nat, asks: seq<Ask<K, D>>)
    requires DistinctIds(table) && IdsBelow(table, next)
    ensures var s := Sync(table, next, asks); DistinctIds(s.table) && IdsBelow(s.table, s.next)
  {
    ExportDistinct(Retained(table, Keys(asks)), next, asks);
  }

  /** The next element of an unordered table. */
  method Pick<T(==)>(s: set<T>) returns (x: T)
    requires s != {}
    ensures x in s
  {
    x :| x in s;
  }

  /** The loop that erases what is not requested. */
  method Retain<K(==), D>(table: map<K, Record<D>>, keys: set<K>) returns (kept: map<K, Record<D>>)
    ensures kept == Retained(table, keys)
  {
    kept := table;
    var todo := table.Keys;
    while todo != {}
      invariant todo <= table.Keys
      invariant kept == map k | k in table && (k in todo || k in keys) :: table[k]
      decreases todo
    {
      var k :| k in todo;
      if k !in keys {
        kept := kept - {k};
      }
      todo := todo - {k};
    }
  }

  // ---------------------------------------------------------------- unordered tables by id

  /** An iteration order of an unordered table: every key once. */
  ghost predicate Lists<T>(order: seq<T>, keys: set<T>) {
    && (forall k | k in order :: k in keys) && (forall k | k in keys :: k in order)
    && (forall i, j | 0 <= i < j < |order| :: order[i] != order[j])
  }

  lemma ListsNext<T>(order: seq<T>, keys: set<T>, k: T)
    requires Lists(order, keys) && k !in keys
    ensures Lists(order + [k], keys + {k})
  {
    assert (order + [k])[|order|] == k;
  }

  /** The listed entries of a table by id. */
  function Gathered<V>(m: map<nat, V>, order: seq<nat>): (reqs: seq<V>)
    requires forall id <- order :: id in m
    ensures |reqs| == |order|
  {
    seq(|order|, i requires 0 <= i < |order| => assert order[i] in order; m[order[i]])
  }

  lemma {:induction false} SomeOrder<T>(keys: set<T>) returns (order: seq<T>)
    ensures Lists(order, keys)
    decreases |keys|
  {
    if keys == {} {
      order := [];
    } else {
      var k :| k in keys;
      var others := SomeOrder(keys - {k});
      order := others + [k];
      assert order[|others|] == k;
    }
  }

  /** Walks the table in some order and collects the entries not in `skip`. */
  method Gather<V>(m: map<nat, V>, skip: set<nat>) returns (reqs: seq<V>, ghost order: seq<nat>)
    ensures Lists(order, m.Keys - skip)
    ensures reqs == Gathered(m, order)
  {
    reqs, order := [], [];
    var todo := m.Keys;
    while todo != {}
      invariant todo <= m.Keys
      invariant Lists(order, m.Keys - todo - skip)
      invariant reqs == Gathered(m, order)
      decreases todo
    {
      var id :| id in todo;
      if id !in skip {
        assert id !in order;
        reqs := reqs + [m[id]];
        order := order + [id];
      }
      todo := todo - {id};
    }
    assert m.Keys - todo - skip == m.Keys - skip;
  }

  lemma {:induction false} ListsCount<T>(order: seq<T>, keys: set<T>)
    requires Lists(order, keys)
    ensures |order| == |keys|
  {
    if order == [] {
      assert keys == {};
    } else {
      var n := |order| - 1;
      assert order[n] in order;
      forall k | k in keys - {order[n]} ensures k in order[..n] {
        var i :| 0 <= i < |order| && order[i] == k;
        assert order[..n][i] == k;
      }
      forall k | k in order[..n] ensures k in keys - {order[n]} {
        var i :| 0 <= i < n && order[..n][i] == k;
        assert order[i] in order;
      }
      ListsCount(order[..n], keys - {order[n]});
    }
  }

  /** Comparing sizes tells whether any entry goes. */
  lemma RemainingCount<V>(m: map<nat, V>, ids: set<nat>, order: seq<nat>)
    requires Lists(order, m.Keys - ids)
    ensures |order| == |m| <==> m.Keys !! ids
  {
    ListsCount(order, m.Keys - ids);
    assert |m| == |m.Keys|;
    assert m.Keys == (m.Keys - ids) + (m.Keys * ids);
    assert |m.Keys| == |m.Keys - ids| + |m.Keys * ids|;
    if |m.Keys * ids| == 0 { assert m.Keys * ids == {}; }
  }
}
