/**
 The exception breakpoint store: ids, the names they filter and the modes in force.
*/
module Exceptions {

  datatype Category = CLR | MDA | ANY

  /** A mode: its category and its three flags. */
  datatype Mode = Mode(category: Category, unhandled: bool, thrown: bool, userUnhandled: bool)

  /** The fields of the store.  `modes` is the multimap from names to modes; a name without
      modes has no entry. */
  datatype Store = Store(table: map<nat, string>, asterisk: nat, modes: map<string, multiset<Mode>>)

  const EMPTY := Store(map[], 0, map[])

  function Modes(s: Store, name: string): multiset<Mode> {
    if name in s.modes then s.modes[name] else multiset{}
  }

  function Removed(s: Store, id: nat): Store {
    if id !in s.table then s
    else
      var name := s.table[id];
      Store(s.table - {id}, if name == "*" then 0 else s.asterisk, s.modes - {name})
  }

  function Inserted(s: Store, id: nat, mode: Mode, name: string): Store {
    var before :=
      if name == "*" then (if s.asterisk != 0 then Removed(s, s.asterisk) else s).(asterisk := id) else s;
    before.(modes := before.modes[name := Modes(before, name) + multiset{mode}], table := before.table[id := name])
  }

  /** Whether Insert reports success. */
  predicate InsertOk(s: Store, name: string) {
    name == "*" && s.asterisk != 0 ==> s.asterisk in s.table
  }

  ghost predicate Live(s: Store, name: string) {
    exists id :: id in s.table && s.table[id] == name
  }

  /** The asterisk id is the one live id of the global filter, if there is one, and every
      stored mode belongs to a live name. */
  ghost predicate Consistent(s: Store) {
    && 0 !in s.table
    && (s.asterisk != 0 ==> s.asterisk in s.table && s.table[s.asterisk] == "*")
    && (forall id | id in s.table && s.table[id] == "*" :: id == s.asterisk)
    && (forall name | name in s.modes :: s.modes[name] != multiset{} && Live(s, name))
  }

  lemma InsertKeeps(s: Store, id: nat, mode: Mode, name: string)
    requires Consistent(s) && id != 0 && id !in s.table
    ensures InsertOk(s, name)
    ensures Consistent(Inserted(s, id, mode, name))
  {
    var r := Inserted(s, id, mode, name);
    assert r.table[id] == name;
    forall n | n in r.modes ensures r.modes[n] != multiset{} && Live(r, n) {
      if n != name {
        assert n in s.modes;
        var i :| i in s.table && s.table[i] == n;
        assert i in r.table && r.table[i] == n;
      }
    }
  }

  lemma DeleteKeeps(s: Store, id: nat)
    requires Consistent(s)
    ensures Consistent(Removed(s, id))
  {
    var r := Removed(s, id);
    forall n | n in r.modes ensures r.modes[n] != multiset{} && Live(r, n) {
      var i :| i in s.table && s.table[i] == n;
      assert i in r.table && r.table[i] == n;
    }
  }

  lemma InsertModes(s: Store, id: nat, mode: Mode, name: string, n: string)
    requires Consistent(s) && id != 0 && id !in s.table
    ensures Modes(Inserted(s, id, mode, name), n) ==
      if n != name then Modes(s, n) else if name == "*" then multiset{mode} else Modes(s, n) + multiset{mode}
  {
    if name == "*" && s.asterisk == 0 {
      assert "*" !in s.modes;
    }
  }

  lemma DeleteModes(s: Store, id: nat, n: string)
    requires id in s.table
    ensures Modes(Removed(s, id), n) == if n == s.table[id] then multiset{} else Modes(s, n)
  {
  }

  /** Every live id has a mode in force. */
  ghost predicate Effective(s: Store) {
    forall id | id in s.table :: Modes(s, s.table[id]) != multiset{}
  }

  /** Deleting an id silences every other id of the same name: ids stay effective exactly
      when no other id has that name. */
  lemma DeleteEffectiveExact(s: Store, id: nat)
    requires Effective(s) && id in s.table
    ensures Effective(Removed(s, id))
      <==> forall other | other in s.table && s.table[other] == s.table[id] :: other == id
  {
    var r := Removed(s, id);
    if other :| other in s.table && s.table[other] == s.table[id] && other != id {
      assert other in r.table && Modes(r, r.table[other]) == multiset{};
    } else {
      forall i | i in r.table ensures Modes(r, r.table[i]) != multiset{} {
        assert s.table[i] != s.table[id];
      }
    }
  }

  /** Two filters for one name, and a delete of the first: the second is left without a mode. */
  lemma OtherSilenced(name: string, m: Mode, n: Mode)
    requires name != "*"
    ensures var s := Inserted(Inserted(EMPTY, 1, m, name), 2, n, name);
      && Effective(s)
      && Removed(s, 1).table == map[2 := name] && Modes(Removed(s, 1), name) == multiset{}
  {
    var s := Inserted(Inserted(EMPTY, 1, m, name), 2, n, name);
    assert s.table == map[1 := name, 2 := name] && m in s.modes[name];
    assert Removed(s, 1).table == map[2 := name];
  }

  class ExceptionBreakpointStorage {
    var table: map<nat, string>
    var currentAsterixId: nat
    var exceptionBreakpoints: map<string, multiset<Mode>>

    function State(): Store
      reads this
    {
      Store(table, currentAsterixId, exceptionBreakpoints)
    }

    constructor ()
      ensures State() == EMPTY
    {
      table, currentAsterixId, exceptionBreakpoints := map[], 0, map[];
    }

    method Insert(id: nat, mode: Mode, name: string) returns (ok: bool)
      modifies this
      ensures State() == Inserted(old(State()), id, mode, name)
      ensures ok == InsertOk(old(State()), name)
    {
      ok := true;
      if name == "*" {
        if currentAsterixId != 0 {
          ok := Delete(currentAsterixId);
        }
        currentAsterixId := id;
      }
      var stored := if name in exceptionBreakpoints then exceptionBreakpoints[name] else multiset{};
      exceptionBreakpoints := exceptionBreakpoints[name := stored + multiset{mode}];
      table := table[id := name];
    }

    method Delete(id: nat) returns (ok: bool)
      modifies this
      ensures State() == Removed(old(State()), id)
      ensures ok == (id in old(table))
    {
      if id !in table {
        return false;
      }
      var name := table[id];
      if name == "*" {
        currentAsterixId := 0;
      }
      exceptionBreakpoints := exceptionBreakpoints - {name};
      table := table - {id};
      ok := true;
    }

    /** Overlays the modes of a name, in the order in which the multimap gives them. */
    method GetExceptionBreakMode(before: Mode, name: string, order: seq<Mode>) returns (ok: bool, out: Mode)
      requires multiset(order) == Modes(State(), name)
      ensures ok == (Modes(State(), name) != multiset{})
      ensures out == Overlaid(before, order)
    {
      out := before;
      if order == [] {
        return false, out;
      }
      out := Union(out.(category := order[0].category), order[0]);
      for i := 1 to |order|
        invariant out == Overlaid(before, order[..i])
      {
        assert order[..i + 1][..i] == order[..i];
        if out.category.ANY? || out.category == order[i].category {
          out := Union(out, order[i]);
        }
      }
      assert order[..|order|] == order && order[0] in multiset(order);
      ok := true;
    }
  }

  // ---------------------------------------------------------------- overlaying modes

  function Union(a: Mode, b: Mode): Mode {
    Mode(a.category, a.unhandled || b.unhandled, a.thrown || b.thrown, a.userUnhandled || b.userUnhandled)
  }

  function Overlaid(before: Mode, order: seq<Mode>): Mode {
    if order == [] then before
    else if |order| == 1 then Union(before.(category := order[0].category), order[0])
    else
      var m, r := order[|order| - 1], Overlaid(before, order[..|order| - 1]);
      if r.category.ANY? || r.category == m.category then Union(r, m) else r
  }

  /** A mode that counts when the leading one has this category. */
  predicate Counts(lead: Category, m: Mode) {
    lead.ANY? || m.category == lead
  }

  /** The leading mode gives the category; the flags are those of all modes that count. */
  lemma {:induction false} OverlaidMeans(before: Mode, order: seq<Mode>)
    requires order != []
    ensures var r, lead := Overlaid(before, order), order[0].category;
      && r.category == lead
      && (r.thrown <==> before.thrown || exists m :: m in order && Counts(lead, m) && m.thrown)
      && (r.unhandled <==> before.unhandled || exists m :: m in order && Counts(lead, m) && m.unhandled)
      && (r.userUnhandled <==> before.userUnhandled || exists m :: m in order && Counts(lead, m) && m.userUnhandled)
  {
    var n := |order| - 1;
    if n == 0 {
      assert order[0] in order && Counts(order[0].category, order[0]);
    } else {
      OverlaidMeans(before, order[..n]);
      assert order == order[..n] + [order[n]];
      assert forall m :: m in order <==> m in order[..n] || m == order[n];
    }
  }

  lemma SameCategoryAnyOrder(before: Mode, order: seq<Mode>, other: seq<Mode>)
    requires order != [] && multiset(other) == multiset(order)
    requires forall m | m in order :: m.category == order[0].category
    ensures Overlaid(before, other) == Overlaid(before, order)
  {
    assert |multiset(other)| == |other|;
    assert forall m :: m in other <==> m in multiset(other);
    assert forall m :: m in order <==> m in multiset(order);
    assert other[0] in other;
    OverlaidMeans(before, order);
    OverlaidMeans(before, other);
  }

  lemma OtherOrder(before: Mode, order: seq<Mode>, i: nat) returns (other: seq<Mode>)
    requires i < |order| && order[i].category != order[0].category
    ensures multiset(other) == multiset(order) && Overlaid(before, other) != Overlaid(before, order)
  {
    other := [order[i]] + (order[..i] + order[i + 1..]);
    assert order == order[..i] + ([order[i]] + order[i + 1..]);
    OverlaidMeans(before, order);
    OverlaidMeans(before, other);
  }

  /** The overlay depends on the multimap's order exactly when a name has modes of different
      categories. */
  lemma OrderExact(before: Mode, order: seq<Mode>)
    requires order != []
    ensures (forall other | multiset(other) == multiset(order) :: Overlaid(before, other) == Overlaid(before, order))
       <==> (forall m | m in order :: m.category == order[0].category)
  {
    if i :| 0 <= i < |order| && order[i].category != order[0].category {
      var other := OtherOrder(before, order, i);
    } else {
      forall other | multiset(other) == multiset(order) ensures Overlaid(before, other) == Overlaid(before, order) {
        SameCategoryAnyOrder(before, order, other);
      }
    }
  }

  datatype Event = FirstChance | UserFirstChance | CatchHandlerFound | UnhandledException

  const DEFAULT_MODE := Mode(CLR, true, false, false)

  const SYSTEM_PREFIX := "System."

  /** Whether an exception stops the program: `global` and `own` are the modes of "*" and of
      the exception's name, in the multimap's order. */
  predicate Match(event: Event, name: string, category: Category, global: seq<Mode>, own: seq<Mode>) {
    var mode := Overlaid(Overlaid(DEFAULT_MODE, global), own);
    && (event.CatchHandlerFound? || event.UnhandledException?)
    && (category.ANY? || category == mode.category)
    && (event.CatchHandlerFound? ==> (mode.userUnhandled && !(SYSTEM_PREFIX <= name)) || mode.thrown)
    && (event.UnhandledException? ==> mode.unhandled)
  }

  lemma {:induction false} FlagsStay(before: Mode, order: seq<Mode>)
    ensures before.unhandled ==> Overlaid(before, order).unhandled
  {
    if |order| > 1 { FlagsStay(before, order[..|order| - 1]); }
  }

  /** The category that decides: that of the most specific filter. */
  function Deciding(global: seq<Mode>, own: seq<Mode>): Category {
    if own != [] then own[0].category else if global != [] then global[0].category else CLR
  }

  /** Some mode that counts stops a thrown exception. */
  ghost predicate SomeThrown(order: seq<Mode>) {
    order != [] && exists m :: m in order && Counts(order[0].category, m) && m.thrown
  }

  /** Some mode that counts stops an exception that user code does not handle. */
  ghost predicate SomeUserUnhandled(order: seq<Mode>) {
    order != [] && exists m :: m in order && Counts(order[0].category, m) && m.userUnhandled
  }

  lemma OverlaidFlags(before: Mode, order: seq<Mode>)
    ensures var r := Overlaid(before, order);
      && (r.thrown <==> before.thrown || SomeThrown(order))
      && (r.userUnhandled <==> before.userUnhandled || SomeUserUnhandled(order))
      && r.category == if order == [] then before.category else order[0].category
  {
    if order != [] { OverlaidMeans(before, order); }
  }

  /** An exception that has found a handler stops the program exactly when its category is the
      deciding one, or any, and a counting mode of either filter stops thrown exceptions, or,
      unless the exception is one of the system's, those that user code does not handle. */
  lemma CaughtExact(name: string, category: Category, global: seq<Mode>, own: seq<Mode>)
    ensures Match(CatchHandlerFound, name, category, global, own) <==>
      && (category.ANY? || category == Deciding(global, own))
      && (SomeThrown(global) || SomeThrown(own)
          || (!("System." <= name) && (SomeUserUnhandled(global) || SomeUserUnhandled(own))))
  {
    OverlaidFlags(DEFAULT_MODE, global);
    OverlaidFlags(Overlaid(DEFAULT_MODE, global), own);
  }

  /** The two other events never stop the program. */
  lemma OthersIgnored(event: Event, name: string, category: Category, global: seq<Mode>, own: seq<Mode>)
    requires event == FirstChance || event == UserFirstChance
    ensures !Match(event, name, category, global, own)
  {
  }

  /** No filter can keep an unhandled exception from stopping the program but by its
      category, and the category that decides is the most specific one. */
  lemma UnhandledExact(name: string, category: Category, global: seq<Mode>, own: seq<Mode>)
    ensures Match(UnhandledException, name, category, global, own) <==>
      category.ANY? || category == Deciding(global, own)
  {
    FlagsStay(DEFAULT_MODE, global);
    FlagsStay(Overlaid(DEFAULT_MODE, global), own);
    if global != [] { OverlaidMeans(DEFAULT_MODE, global); }
    if own != [] { OverlaidMeans(Overlaid(DEFAULT_MODE, global), own); }
  }
}
