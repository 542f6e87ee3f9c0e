/**
 The expression analyser of the symbol reader (SyntaxAnalyzer and FrameVars): a walk
 over a syntax tree that collects the identifiers an expression uses without declaring
 them.  A block is walked once per child node instead of once; the main results are that
 this gives the answer of a single walk, and what that answer is.
 */
module Syntax {
  import opened Options

  datatype Kind =
    | InvocationExpression
    | GenericName
    | ArgumentList
    | VariableDeclarator
    | Block
    | OtherKind

  datatype Mode = Common | Invocation | Generic

  /** The part of a parser's tree that the analyser looks at.  `Access` is a simple member
      access, which always has a first child. */
  datatype Item =
    | Token(isIdentifier: bool, text: string)
    | Access(head: Item, rest: seq<Item>)
    | Node(kind: Kind, children: seq<Item>)

  /** What the analyser has collected, and the names in scope, innermost last. */
  datatype State = State(unresolved: seq<string>, scope: seq<string>)

  /** How often a block is walked: once per child node, as the source does, or once. */
  datatype Policy = PerChild | Once

  function ModeOf(kind: Kind, mode: Mode): Mode {
    match kind
    case InvocationExpression => Invocation
    case GenericName => Generic
    case ArgumentList => Common
    case _ => mode
  }

  function NodeCount(items: seq<Item>): nat {
    if items == [] then 0
    else NodeCount(items[..|items| - 1]) + if items[|items| - 1].Token? then 0 else 1
  }

  // ---------------------------------------------------------------- the walk, on values

  function Use(name: string, st: State): State {
    if name in st.unresolved || name in st.scope then st
    else st.(unresolved := st.unresolved + [name])
  }

  function Declare(name: string, st: State): State {
    if name in st.scope then st else st.(scope := st.scope + [name])
  }

  ghost predicate Extends(a: State, b: State) {
    a.unresolved <= b.unresolved && a.scope <= b.scope
  }

  /** One child, as ParseNode dispatches it. */
  function Visit(p: Policy, item: Item, inDeclarator: bool, mode: Mode, st: State): (r: State)
    ensures Extends(st, r)
    decreases item, 2
  {
    match item
    case Token(isIdentifier, text) =>
      if !isIdentifier then st
      else if inDeclarator then Declare(text, st)
      else if mode.Common? then Use(text, st)
      else st
    case Access(head, _) => VisitHead(p, head, mode, st)
    case Node(kind, children) =>
      if kind.Block? then
        var times := if p.Once? then 1 else NodeCount(children);
        State(VisitTimes(p, times, children, st).unresolved, st.scope)
      else
        VisitAll(p, children, kind.VariableDeclarator?, ModeOf(kind, mode), st)
  }

  /** The first child of a member access, as ParseAccessNode treats it. */
  function VisitHead(p: Policy, item: Item, mode: Mode, st: State): (r: State)
    ensures Extends(st, r)
    decreases item, 1
  {
    match item
    case Token(isIdentifier, text) => if isIdentifier && mode.Common? then Use(text, st) else st
    case Access(head, _) => VisitHead(p, head, mode, st)
    case Node(kind, children) => VisitAll(p, children, kind.VariableDeclarator?, ModeOf(kind, mode), st)
  }

  function VisitAll(p: Policy, items: seq<Item>, inDeclarator: bool, mode: Mode, st: State): (r: State)
    ensures Extends(st, r)
    decreases items, 0
  {
    if items == [] then st
    else
      var n := |items| - 1;
      Visit(p, items[n], inDeclarator, mode, VisitAll(p, items[..n], inDeclarator, mode, st))
  }

  function VisitTimes(p: Policy, times: nat, items: seq<Item>, st: State): (r: State)
    ensures Extends(st, r)
    decreases items, 1, times
  {
    if times == 0 then st
    else VisitAll(p, items, false, Common, VisitTimes(p, times - 1, items, st))
  }

  // ------------------------------------------- walking again changes nothing

  ghost predicate Within(xs: seq<string>, ys: seq<string>) {
    forall x :: x in xs ==> x in ys
  }

  /** `b` knows every name in scope in `a`, and everything that a walk from `a` would report. */
  ghost predicate Covers(a: State, after: State, b: State) {
    Within(a.scope, b.scope) && Within(after.unresolved, b.unresolved)
  }

  /** A walk from a covering state reports nothing new; with the declarations in scope as
      well it changes nothing at all. */
  ghost predicate Absorbed(after: State, b: State, afterB: State) {
    && afterB.unresolved == b.unresolved
    && Within(after.scope, afterB.scope)
    && (Within(after.scope, b.scope) ==> afterB == b)
  }

  lemma {:induction false} VisitAbsorbed(p: Policy, item: Item, inDeclarator: bool, mode: Mode, a: State, b: State)
    requires Covers(a, Visit(p, item, inDeclarator, mode, a), b)
    ensures Absorbed(Visit(p, item, inDeclarator, mode, a), b, Visit(p, item, inDeclarator, mode, b))
    decreases item, 2
  {
    match item
    case Token(_, _) =>
    case Access(head, _) => VisitHeadAbsorbed(p, head, mode, a, b);
    case Node(kind, children) =>
      if kind.Block? {
        VisitTimesAbsorbed(p, if p.Once? then 1 else NodeCount(children), children, a, b);
      } else {
        VisitAllAbsorbed(p, children, kind.VariableDeclarator?, ModeOf(kind, mode), a, b);
      }
  }

  lemma {:induction false} VisitHeadAbsorbed(p: Policy, item: Item, mode: Mode, a: State, b: State)
    requires Covers(a, VisitHead(p, item, mode, a), b)
    ensures Absorbed(VisitHead(p, item, mode, a), b, VisitHead(p, item, mode, b))
    decreases item, 1
  {
    match item
    case Token(_, _) =>
    case Access(head, _) => VisitHeadAbsorbed(p, head, mode, a, b);
    case Node(kind, children) =>
      VisitAllAbsorbed(p, children, kind.VariableDeclarator?, ModeOf(kind, mode), a, b);
  }

  lemma {:induction false} VisitAllAbsorbed(p: Policy, items: seq<Item>, inDeclarator: bool, mode: Mode, a: State,
                                            b: State)
    requires Covers(a, VisitAll(p, items, inDeclarator, mode, a), b)
    ensures Absorbed(VisitAll(p, items, inDeclarator, mode, a), b, VisitAll(p, items, inDeclarator, mode, b))
    decreases items, 0
  {
    if items != [] {
      var n := |items| - 1;
      var a1 := VisitAll(p, items[..n], inDeclarator, mode, a);
      var b1 := VisitAll(p, items[..n], inDeclarator, mode, b);
      assert Extends(a1, VisitAll(p, items, inDeclarator, mode, a));
      VisitAllAbsorbed(p, items[..n], inDeclarator, mode, a, b);
      VisitAbsorbed(p, items[n], inDeclarator, mode, a1, b1);
    }
  }

  lemma {:induction false} VisitTimesAbsorbed(p: Policy, times: nat, items: seq<Item>, a: State, b: State)
    requires Covers(a, VisitTimes(p, times, items, a), b)
    ensures Absorbed(VisitTimes(p, times, items, a), b, VisitTimes(p, times, items, b))
    decreases items, 1, times
  {
    if times > 0 {
      var a1 := VisitTimes(p, times - 1, items, a);
      assert Extends(a1, VisitTimes(p, times, items, a));
      VisitTimesAbsorbed(p, times - 1, items, a, b);
      VisitAllAbsorbed(p, items, false, Common, a1, VisitTimes(p, times - 1, items, b));
    }
  }

  /** However often a list of children is walked, the first walk decides. */
  lemma {:induction false} RewalkIsOneWalk(p: Policy, times: nat, items: seq<Item>, st: State)
    requires times >= 1
    ensures VisitTimes(p, times, items, st) == VisitAll(p, items, false, Common, st)
  {
    var once := VisitAll(p, items, false, Common, st);
    if times > 1 {
      RewalkIsOneWalk(p, times - 1, items, st);
      VisitAllAbsorbed(p, items, false, Common, st, once);
    } else {
      assert VisitTimes(p, 0, items, st) == st;
    }
  }

  // ------------------------------------------- the source's walk and the single walk

  /** Every block that has no child node has no identifier among its own tokens either: the
      C# grammar gives a block no tokens but its braces. */
  ghost predicate BlocksBracketed(item: Item) {
    match item
    case Token(_, _) => true
    case Access(head, rest) => BlocksBracketed(head) && forall i <- rest :: BlocksBracketed(i)
    case Node(kind, children) =>
      && (kind.Block? && NodeCount(children) == 0 ==> NoIdentifier(children))
      && forall i <- children :: BlocksBracketed(i)
  }

  ghost predicate NoIdentifier(items: seq<Item>) {
    forall i <- items :: i.Token? ==> !i.isIdentifier
  }

  lemma {:induction false} NoNodes(items: seq<Item>)
    requires NodeCount(items) == 0
    ensures forall i <- items :: i.Token?
  {
    if items != [] {
      NoNodes(items[..|items| - 1]);
      assert items == items[..|items| - 1] + [items[|items| - 1]];
    }
  }

  lemma {:induction false} BarrenTokens(p: Policy, items: seq<Item>, st: State)
    requires NoIdentifier(items) && forall i <- items :: i.Token?
    ensures VisitAll(p, items, false, Common, st) == st
  {
    if items != [] {
      BarrenTokens(p, items[..|items| - 1], st);
    }
  }

  /** The walk of the source agrees with the walk that enters every block once. */
  lemma {:induction false} PerChildIsOnce(item: Item, inDeclarator: bool, mode: Mode, st: State)
    requires BlocksBracketed(item)
    ensures Visit(PerChild, item, inDeclarator, mode, st) == Visit(Once, item, inDeclarator, mode, st)
    decreases item, 2
  {
    match item
    case Token(_, _) =>
    case Access(head, _) => PerChildIsOnceHead(head, mode, st);
    case Node(kind, children) =>
      if kind.Block? {
        PerChildIsOnceAll(children, false, Common, st);
        RewalkIsOneWalk(Once, 1, children, st);
        if NodeCount(children) == 0 {
          NoNodes(children);
          BarrenTokens(Once, children, st);
        } else {
          RewalkIsOneWalk(PerChild, NodeCount(children), children, st);
        }
      } else {
        PerChildIsOnceAll(children, kind.VariableDeclarator?, ModeOf(kind, mode), st);
      }
  }

  lemma {:induction false} PerChildIsOnceHead(item: Item, mode: Mode, st: State)
    requires BlocksBracketed(item)
    ensures VisitHead(PerChild, item, mode, st) == VisitHead(Once, item, mode, st)
    decreases item, 1
  {
    match item
    case Token(_, _) =>
    case Access(head, _) => PerChildIsOnceHead(head, mode, st);
    case Node(kind, children) =>
      PerChildIsOnceAll(children, kind.VariableDeclarator?, ModeOf(kind, mode), st);
  }

  lemma {:induction false} PerChildIsOnceAll(items: seq<Item>, inDeclarator: bool, mode: Mode, st: State)
    requires forall i <- items :: BlocksBracketed(i)
    ensures VisitAll(PerChild, items, inDeclarator, mode, st) == VisitAll(Once, items, inDeclarator, mode, st)
    decreases items, 0
  {
    if items != [] {
      var n := |items| - 1;
      PerChildIsOnceAll(items[..n], inDeclarator, mode, st);
      PerChildIsOnce(items[n], inDeclarator, mode, VisitAll(Once, items[..n], inDeclarator, mode, st));
    }
  }

  /** The exact condition for one block whose children are walked alike: the repeated walk
      differs from the single walk only when there is no child node to count and some
      identifier token that is neither in scope nor reported yet. */
  lemma {:induction false} BlockExact(children: seq<Item>, st: State)
    requires forall i <- children :: BlocksBracketed(i)
    ensures var block := Node(Block, children);
      Visit(PerChild, block, false, Common, st) == Visit(Once, block, false, Common, st) <==>
      (NodeCount(children) == 0 ==>
         forall i <- children :: i.Token? && i.isIdentifier ==> i.text in st.unresolved || i.text in st.scope)
  {
    PerChildIsOnceAll(children, false, Common, st);
    RewalkIsOneWalk(Once, 1, children, st);
    if NodeCount(children) == 0 {
      NoNodes(children);
      TokensReported(children, st);
    } else {
      RewalkIsOneWalk(PerChild, NodeCount(children), children, st);
    }
  }

  /** A block with an identifier and no child node: the repeated walk does not see it. */
  lemma ChildlessBlock(name: string)
    ensures Visit(PerChild, Node(Block, [Token(true, name)]), false, Common, State([], [])) == State([], [])
    ensures Visit(Once, Node(Block, [Token(true, name)]), false, Common, State([], [])) == State([name], [])
  {
    var items := [Token(true, name)];
    assert items[..0] == [];
    assert NodeCount(items) == 0;
    assert VisitAll(Once, items, false, Common, State([], [])) == State([name], []);
    assert VisitTimes(Once, 1, items, State([], [])) == State([name], []);
  }

  lemma {:induction false} TokensReported(items: seq<Item>, st: State)
    requires forall i <- items :: i.Token?
    ensures VisitAll(Once, items, false, Common, st).scope == st.scope
    ensures VisitAll(Once, items, false, Common, st).unresolved == st.unresolved
       <==> forall i <- items :: i.isIdentifier ==> i.text in st.unresolved || i.text in st.scope
  {
    if items != [] {
      var n := |items| - 1;
      TokensReported(items[..n], st);
      assert items == items[..n] + [items[n]];
      assert Extends(VisitAll(Once, items[..n], false, Common, st), VisitAll(Once, items, false, Common, st));
      assert items[n] in items;
    }
  }

  // ------------------------------------------- what is collected, said by occurrences

  /** Where a list of items stands: whether they are the children of a node or the head of a
      member access, whether the node is a declarator, and the mode. */
  datatype Place = Place(inNode: bool, inDeclarator: bool, mode: Mode)

  const ROOT := Place(false, false, Common)

  /** A block that is the child of a node opens a frame. */
  predicate Opens(item: Item, place: Place) {
    item.Node? && item.kind.Block? && place.inNode
  }

  /** What is walked below an item, and where that stands. */
  function Below(item: Item): seq<Item> {
    match item
    case Token(_, _) => []
    case Access(head, _) => [head]
    case Node(_, children) => children
  }

  function Inner(item: Item, place: Place): Place {
    match item
    case Token(_, _) => place
    case Access(_, _) => Place(false, false, place.mode)
    case Node(kind, _) =>
      match kind
      case Block => Place(true, false, if place.inNode then Common else place.mode)
      case InvocationExpression => Place(true, false, Invocation)
      case GenericName => Place(true, false, Generic)
      case ArgumentList => Place(true, false, Common)
      case VariableDeclarator => Place(true, true, place.mode)
      case OtherKind => Place(true, false, place.mode)
  }

  /** The item that a path leads to, one index for each level. */
  function ItemAt(items: seq<Item>, path: seq<nat>): Option<Item>
    decreases |path|
  {
    if path == [] || path[0] >= |items| then None
    else if |path| == 1 then Some(items[path[0]])
    else ItemAt(Below(items[path[0]]), path[1..])
  }

  /** Where that item stands. */
  function PlaceAt(items: seq<Item>, place: Place, path: seq<nat>): Place
    decreases |path|
  {
    if |path| <= 1 || path[0] >= |items| then place
    else PlaceAt(Below(items[path[0]]), Inner(items[path[0]], place), path[1..])
  }

  predicate Occurs(items: seq<Item>, path: seq<nat>, name: string) {
    ItemAt(items, path) == Some(Token(true, name))
  }

  /** An occurrence of the name that uses it: not in a declarator, and in the common mode. */
  predicate Uses(items: seq<Item>, place: Place, path: seq<nat>, name: string) {
    var at := PlaceAt(items, place, path);
    Occurs(items, path, name) && !at.inDeclarator && at.mode.Common?
  }

  predicate Declares(items: seq<Item>, place: Place, path: seq<nat>, name: string) {
    Occurs(items, path, name) && PlaceAt(items, place, path).inDeclarator
  }

  predicate OpensAt(items: seq<Item>, place: Place, path: seq<nat>) {
    var item := ItemAt(items, path);
    item.Some? && Opens(item.value, PlaceAt(items, place, path))
  }

  /** No frame is opened on the way down `path` behind its first `k` steps. */
  ghost predicate Clear(items: seq<Item>, place: Place, path: seq<nat>, k: nat) {
    forall j | k <= j < |path| && 0 < j :: !OpensAt(items, place, path[..j])
  }

  /** Where the paths part, `q` goes to an earlier sibling, and opens no frame from there on: what
      is declared at `q` is in scope at `p`. */
  ghost predicate Sees(items: seq<Item>, place: Place, p: seq<nat>, q: seq<nat>) {
    exists k: nat | k < |p| && k < |q| :: q[..k] == p[..k] && q[k] < p[k] && Clear(items, place, q, k + 1)
  }

  /** A use of the name with no declaration of it in scope. */
  ghost predicate FreeAt(items: seq<Item>, place: Place, p: seq<nat>, name: string) {
    Uses(items, place, p, name) && forall q | Declares(items, place, q, name) :: !Sees(items, place, p, q)
  }

  // ------------------------------------------- the same, as sets

  /** The names an item declares in the frame it stands in. */
  function Declared(item: Item, place: Place): set<string>
    decreases item, 1
  {
    match item
    case Token(isIdentifier, text) => if isIdentifier && place.inDeclarator then {text} else {}
    case Access(head, _) => Declared(head, Inner(item, place))
    case Node(_, children) => if Opens(item, place) then {} else DeclaredAll(children, Inner(item, place))
  }

  function DeclaredAll(items: seq<Item>, place: Place): set<string>
    decreases items, 0
  {
    if items == [] then {}
    else DeclaredAll(items[..|items| - 1], place) + Declared(items[|items| - 1], place)
  }

  /** The names that an item uses and that neither `scope` nor an earlier sibling declares. */
  function Free(item: Item, place: Place, scope: set<string>): set<string>
    decreases item, 1
  {
    match item
    case Token(isIdentifier, text) =>
      if isIdentifier && !place.inDeclarator && place.mode.Common? && text !in scope then {text} else {}
    case Access(head, _) => Free(head, Inner(item, place), scope)
    case Node(_, children) => FreeAll(children, Inner(item, place), scope)
  }

  function FreeAll(items: seq<Item>, place: Place, scope: set<string>): set<string>
    decreases items, 0
  {
    if items == [] then {}
    else
      var n := |items| - 1;
      FreeAll(items[..n], place, scope) + Free(items[n], place, scope + DeclaredAll(items[..n], place))
  }

  lemma {:induction false} DeclaredSome(items: seq<Item>, place: Place, name: string)
    ensures name in DeclaredAll(items, place) <==> exists i :: 0 <= i < |items| && name in Declared(items[i], place)
  {
    if items != [] {
      var n := |items| - 1;
      DeclaredSome(items[..n], place, name);
      assert forall i | 0 <= i < n :: items[..n][i] == items[i];
    }
  }

  /** The name is free in item `i`, given what the earlier ones declare. */
  predicate FreeIn(items: seq<Item>, place: Place, scope: set<string>, i: nat, name: string)
    requires i < |items|
  {
    name in Free(items[i], place, scope + DeclaredAll(items[..i], place))
  }

  lemma {:induction false} FreeSome(items: seq<Item>, place: Place, scope: set<string>, name: string)
    ensures name in FreeAll(items, place, scope)
      <==> exists i :: 0 <= i < |items| && FreeIn(items, place, scope, i, name)
  {
    if items != [] {
      var n := |items| - 1;
      FreeSome(items[..n], place, scope, name);
      forall i | 0 <= i < n ensures FreeIn(items[..n], place, scope, i, name) == FreeIn(items, place, scope, i, name) {
        assert items[..n][..i] == items[..i];
      }
      assert FreeIn(items, place, scope, n, name)
        <==> name in Free(items[n], place, scope + DeclaredAll(items[..n], place));
    }
  }

  // ------------------------------------------- paths, one step at a time

  predicate Starts(path: seq<nat>, i: nat) {
    path != [] && path[0] == i
  }

  /** A longer path says below its first item what it says as a whole. */
  lemma PathBelow(items: seq<Item>, place: Place, i: nat, path: seq<nat>)
    requires i < |items| && path != []
    ensures ItemAt(items, [i] + path) == ItemAt(Below(items[i]), path)
    ensures PlaceAt(items, place, [i] + path) == PlaceAt(Below(items[i]), Inner(items[i], place), path)
  {
    assert ([i] + path)[1..] == path;
  }

  lemma OccursBelow(items: seq<Item>, place: Place, i: nat, path: seq<nat>, name: string)
    requires i < |items| && path != []
    ensures Uses(items, place, [i] + path, name) <==> Uses(Below(items[i]), Inner(items[i], place), path, name)
    ensures Declares(items, place, [i] + path, name) <==> Declares(Below(items[i]), Inner(items[i], place), path, name)
  {
    PathBelow(items, place, i, path);
  }

  lemma ClearBelow(items: seq<Item>, place: Place, i: nat, path: seq<nat>, k: nat)
    requires i < |items| && path != []
    ensures Clear(items, place, [i] + path, k + 1) <==>
      (k == 0 ==> !Opens(items[i], place)) && Clear(Below(items[i]), Inner(items[i], place), path, k)
  {
    var all := [i] + path;
    assert all[..1] == [i];
    forall j | 1 < j < |all|
      ensures OpensAt(items, place, all[..j]) == OpensAt(Below(items[i]), Inner(items[i], place), path[..j - 1]) {
      assert all[..j] == [i] + path[..j - 1];
      PathBelow(items, place, i, path[..j - 1]);
    }
    if Clear(items, place, all, k + 1) {
      forall j | k <= j < |path| && 0 < j ensures !OpensAt(Below(items[i]), Inner(items[i], place), path[..j]) {
        assert !OpensAt(items, place, all[..j + 1]);
      }
      if k == 0 { assert !OpensAt(items, place, all[..1]); }
    }
  }

  lemma SeesBelow(items: seq<Item>, place: Place, i: nat, p: seq<nat>, q: seq<nat>)
    requires i < |items| && p != [] && q != []
    ensures Sees(items, place, [i] + p, [i] + q) <==> Sees(Below(items[i]), Inner(items[i], place), p, q)
  {
    var p', q' := [i] + p, [i] + q;
    if k: nat :| k < |p'| && k < |q'| && q'[..k] == p'[..k] && q'[k] < p'[k] && Clear(items, place, q', k + 1) {
      assert k > 0;
      assert p[..k - 1] == p'[..k][1..] && q[..k - 1] == q'[..k][1..];
      ClearBelow(items, place, i, q, k);
      assert q[k - 1] < p[k - 1];
    }
    if k: nat :| k < |p| && k < |q| && q[..k] == p[..k] && q[k] < p[k]
                 && Clear(Below(items[i]), Inner(items[i], place), q, k + 1) {
      assert p'[..k + 1] == [i] + p[..k] && q'[..k + 1] == [i] + q[..k];
      ClearBelow(items, place, i, q, k + 1);
      assert q'[k + 1] < p'[k + 1];
    }
  }

  /** Paths that part at once. */
  lemma SeesAside(items: seq<Item>, place: Place, p: seq<nat>, q: seq<nat>)
    requires p != [] && q != [] && p[0] != q[0]
    ensures Sees(items, place, p, q) <==> q[0] < p[0] && Clear(items, place, q, 1)
  {
    if q[0] < p[0] && Clear(items, place, q, 0 + 1) { assert q[..0] == p[..0]; }
    if k: nat :| k < |p| && k < |q| && q[..k] == p[..k] && q[k] < p[k] && Clear(items, place, q, k + 1) {
      assert k == 0;
    }
  }

  // ------------------------------------------- the sets are those of the occurrences

  /** A declaration with no frame opened on the way down to it. */
  ghost predicate DeclaresClear(items: seq<Item>, place: Place, q: seq<nat>, name: string) {
    Declares(items, place, q, name) && Clear(items, place, q, 1)
  }

  lemma TokenPath(items: seq<Item>, i: nat, path: seq<nat>, name: string)
    requires i < |items| && Starts(path, i) && Occurs(items, path, name)
    ensures items[i].Token? <==> path == [i]
    ensures !items[i].Token? ==> path[1..] != [] && path == [i] + path[1..]
  {
    if |path| > 1 {
      assert ItemAt(items, path) == ItemAt(Below(items[i]), path[1..]);
    } else {
      assert path == [i];
    }
  }

  lemma DeclaredUp(items: seq<Item>, place: Place, i: nat, name: string)
    requires i < |items| && !items[i].Token?
    ensures (exists q :: Starts(q, i) && DeclaresClear(items, place, q, name))
       <==> !Opens(items[i], place) && exists q :: DeclaresClear(Below(items[i]), Inner(items[i], place), q, name)
  {
    var below, inner := Below(items[i]), Inner(items[i], place);
    if q :| Starts(q, i) && DeclaresClear(items, place, q, name) {
      TokenPath(items, i, q, name);
      OccursBelow(items, place, i, q[1..], name);
      ClearBelow(items, place, i, q[1..], 0);
      assert DeclaresClear(below, inner, q[1..], name);
    }
    if q :| !Opens(items[i], place) && DeclaresClear(below, inner, q, name) {
      OccursBelow(items, place, i, q, name);
      ClearBelow(items, place, i, q, 0);
      assert Starts([i] + q, i);
    }
  }

  lemma {:induction false} DeclaredItem(items: seq<Item>, place: Place, i: nat, name: string)
    requires i < |items|
    ensures name in Declared(items[i], place) <==> exists q :: Starts(q, i) && DeclaresClear(items, place, q, name)
    decreases items[i], 1
  {
    match items[i]
    case Token(_, _) =>
      if q :| Starts(q, i) && DeclaresClear(items, place, q, name) { TokenPath(items, i, q, name); }
      assert Starts([i], i);
    case Access(head, _) =>
      DeclaredItem([head], Inner(items[i], place), 0, name);
      DeclaredAlone(head, Inner(items[i], place), name);
      assert Below(items[i]) == [head] && [head][0] == head;
      DeclaredUp(items, place, i, name);
    case Node(_, children) =>
      DeclaredOccurs(children, Inner(items[i], place), name);
      assert Below(items[i]) == children;
      DeclaredUp(items, place, i, name);
  }

  lemma AllStart(item: Item, place: Place, name: string)
    ensures forall q | Occurs([item], q, name) :: Starts(q, 0)
  {
  }

  lemma DeclaredAlone(item: Item, place: Place, name: string)
    ensures (exists q :: Starts(q, 0) && DeclaresClear([item], place, q, name))
       <==> exists q :: DeclaresClear([item], place, q, name)
  {
    AllStart(item, place, name);
  }

  lemma {:induction false} DeclaredOccurs(items: seq<Item>, place: Place, name: string)
    ensures name in DeclaredAll(items, place) <==> exists q :: DeclaresClear(items, place, q, name)
    decreases items, 0
  {
    DeclaredSome(items, place, name);
    forall i | 0 <= i < |items|
      ensures name in Declared(items[i], place) <==> exists q :: Starts(q, i) && DeclaresClear(items, place, q, name)
    {
      DeclaredItem(items, place, i, name);
    }
    if q :| DeclaresClear(items, place, q, name) { assert Starts(q, q[0]) && 0 <= q[0] < |items|; }
  }

  ghost predicate DeclaredAside(items: seq<Item>, place: Place, i: nat, name: string) {
    exists q :: q != [] && q[0] < i && DeclaresClear(items, place, q, name)
  }

  lemma DeclaredBefore(items: seq<Item>, place: Place, i: nat, name: string)
    requires i <= |items|
    ensures name in DeclaredAll(items[..i], place) <==> DeclaredAside(items, place, i, name)
  {
    DeclaredSome(items[..i], place, name);
    forall j | 0 <= j < i
      ensures items[..i][j] == items[j]
      ensures name in Declared(items[j], place) <==> exists q :: Starts(q, j) && DeclaresClear(items, place, q, name)
    {
      DeclaredItem(items, place, j, name);
    }
    if q :| q != [] && q[0] < i && DeclaresClear(items, place, q, name) { assert Starts(q, q[0]); }
  }

  /** As FreeAt, for the declarations below the same item. */
  ghost predicate FreeBelow(items: seq<Item>, place: Place, i: nat, p: seq<nat>, name: string) {
    && Starts(p, i) && Uses(items, place, p, name)
    && forall q | Starts(q, i) && Declares(items, place, q, name) :: !Sees(items, place, p, q)
  }

  lemma FreeUp(items: seq<Item>, place: Place, i: nat, name: string)
    requires i < |items| && !items[i].Token?
    ensures (exists p :: FreeBelow(items, place, i, p, name))
       <==> exists p :: FreeAt(Below(items[i]), Inner(items[i], place), p, name)
  {
    var below, inner := Below(items[i]), Inner(items[i], place);
    if p :| FreeBelow(items, place, i, p, name) {
      TokenPath(items, i, p, name);
      FreeUpAt(items, place, i, p[1..], name);
      assert FreeAt(below, inner, p[1..], name);
    }
    if p :| FreeAt(below, inner, p, name) {
      FreeUpAt(items, place, i, p, name);
      assert FreeBelow(items, place, i, [i] + p, name);
    }
  }

  lemma FreeUpAt(items: seq<Item>, place: Place, i: nat, p: seq<nat>, name: string)
    requires i < |items| && !items[i].Token? && p != []
    ensures FreeBelow(items, place, i, [i] + p, name) <==> FreeAt(Below(items[i]), Inner(items[i], place), p, name)
  {
    var below, inner := Below(items[i]), Inner(items[i], place);
    OccursBelow(items, place, i, p, name);
    if FreeBelow(items, place, i, [i] + p, name) {
      forall q | Declares(below, inner, q, name) ensures !Sees(below, inner, p, q) {
        OccursBelow(items, place, i, q, name);
        SeesBelow(items, place, i, p, q);
        assert Starts([i] + q, i);
      }
    }
    if FreeAt(below, inner, p, name) {
      forall q | Starts(q, i) && Declares(items, place, q, name) ensures !Sees(items, place, [i] + p, q) {
        TokenPath(items, i, q, name);
        OccursBelow(items, place, i, q[1..], name);
        SeesBelow(items, place, i, p, q[1..]);
      }
    }
  }

  lemma FreeToken(items: seq<Item>, place: Place, i: nat, name: string)
    requires i < |items| && items[i].Token?
    ensures (exists p :: FreeBelow(items, place, i, p, name)) <==> Uses(items, place, [i], name)
  {
    if p :| FreeBelow(items, place, i, p, name) { TokenPath(items, i, p, name); }
    if Uses(items, place, [i], name) {
      forall q | Starts(q, i) && Declares(items, place, q, name) ensures !Sees(items, place, [i], q) {
        TokenPath(items, i, q, name);
      }
      assert FreeBelow(items, place, i, [i], name);
    }
  }

  lemma FreeAlone(item: Item, place: Place, name: string)
    ensures (exists p :: FreeBelow([item], place, 0, p, name)) <==> exists p :: FreeAt([item], place, p, name)
  {
    AllStart(item, place, name);
    if p :| FreeBelow([item], place, 0, p, name) { assert FreeAt([item], place, p, name); }
    if p :| FreeAt([item], place, p, name) { assert FreeBelow([item], place, 0, p, name); }
  }

  lemma {:induction false} FreeItem(items: seq<Item>, place: Place, scope: set<string>, i: nat, name: string)
    requires i < |items|
    ensures name in Free(items[i], place, scope) <==> name !in scope && exists p :: FreeBelow(items, place, i, p, name)
    decreases items[i], 1
  {
    match items[i]
    case Token(_, _) => FreeToken(items, place, i, name);
    case Access(head, _) =>
      FreeItem([head], Inner(items[i], place), scope, 0, name);
      FreeAlone(head, Inner(items[i], place), name);
      assert Below(items[i]) == [head] && [head][0] == head;
      FreeUp(items, place, i, name);
    case Node(_, children) =>
      FreeOccurs(children, Inner(items[i], place), scope, name);
      assert Below(items[i]) == children;
      FreeUp(items, place, i, name);
  }

  /** A free use below item `i` is one of the list when no earlier item declares the name. */
  lemma FreeSplit(items: seq<Item>, place: Place, p: seq<nat>, name: string)
    requires p != []
    ensures FreeAt(items, place, p, name)
       <==> FreeBelow(items, place, p[0], p, name) && !DeclaredAside(items, place, p[0], name)
  {
    forall q | q != [] && q[0] != p[0] ensures Sees(items, place, p, q) <==> q[0] < p[0] && Clear(items, place, q, 1) {
      SeesAside(items, place, p, q);
    }
  }

  lemma {:induction false} FreeOccurs(items: seq<Item>, place: Place, scope: set<string>, name: string)
    ensures name in FreeAll(items, place, scope) <==> name !in scope && exists p :: FreeAt(items, place, p, name)
    decreases items, 0
  {
    FreeSome(items, place, scope, name);
    forall i | 0 <= i < |items|
      ensures FreeIn(items, place, scope, i, name)
         <==> name !in scope && !DeclaredAside(items, place, i, name) && exists p :: FreeBelow(items, place, i, p, name)
    {
      FreeItem(items, place, scope + DeclaredAll(items[..i], place), i, name);
      DeclaredBefore(items, place, i, name);
    }
    if p :| FreeAt(items, place, p, name) {
      FreeSplit(items, place, p, name);
      assert 0 <= p[0] < |items|;
    }
    if i, p :| 0 <= i < |items| && !DeclaredAside(items, place, i, name) && FreeBelow(items, place, i, p, name) {
      FreeSplit(items, place, p, name);
    }
  }

  function Names(xs: seq<string>): set<string> {
    set x | x in xs
  }

  ghost predicate Collects(st: State, free: set<string>, declared: set<string>, r: State) {
    && Names(r.unresolved) == Names(st.unresolved) + free
    && Names(r.scope) == Names(st.scope) + declared
  }

  lemma InnerOf(kind: Kind, children: seq<Item>, place: Place)
    ensures Inner(Node(kind, children), place)
         == if kind.Block? && place.inNode then Place(true, false, Common)
            else Place(true, kind.VariableDeclarator?, ModeOf(kind, place.mode))
  {
  }

  lemma NodeCollects(kind: Kind, children: seq<Item>, place: Place, scope: set<string>)
    ensures var item, inner := Node(kind, children), Inner(Node(kind, children), place);
      && Free(item, place, scope) == FreeAll(children, inner, scope)
      && Declared(item, place) == if kind.Block? && place.inNode then {} else DeclaredAll(children, inner)
  {
  }

  lemma {:induction false} VisitCollects(item: Item, inDeclarator: bool, mode: Mode, st: State)
    ensures var place := Place(true, inDeclarator, mode);
      Collects(st, Free(item, place, Names(st.scope)), Declared(item, place), Visit(Once, item, inDeclarator, mode, st))
    decreases item, 2
  {
    match item
    case Token(_, _) =>
    case Access(head, _) => VisitHeadCollects(head, mode, st);
    case Node(kind, children) =>
      InnerOf(kind, children, Place(true, inDeclarator, mode));
      NodeCollects(kind, children, Place(true, inDeclarator, mode), Names(st.scope));
      if kind.Block? {
        RewalkIsOneWalk(Once, 1, children, st);
        VisitAllCollects(children, false, Common, st);
      } else {
        VisitAllCollects(children, kind.VariableDeclarator?, ModeOf(kind, mode), st);
      }
  }

  lemma {:induction false} VisitHeadCollects(item: Item, mode: Mode, st: State)
    ensures var place := Place(false, false, mode);
      Collects(st, Free(item, place, Names(st.scope)), Declared(item, place), VisitHead(Once, item, mode, st))
    decreases item, 1
  {
    match item
    case Token(_, _) =>
    case Access(head, _) => VisitHeadCollects(head, mode, st);
    case Node(kind, children) =>
      InnerOf(kind, children, Place(false, false, mode));
      NodeCollects(kind, children, Place(false, false, mode), Names(st.scope));
      VisitAllCollects(children, kind.VariableDeclarator?, ModeOf(kind, mode), st);
  }

  lemma {:induction false} VisitAllCollects(items: seq<Item>, inDeclarator: bool, mode: Mode, st: State)
    ensures var place := Place(true, inDeclarator, mode);
      Collects(st, FreeAll(items, place, Names(st.scope)), DeclaredAll(items, place),
               VisitAll(Once, items, inDeclarator, mode, st))
    decreases items, 0
  {
    if items != [] {
      var n := |items| - 1;
      var before := VisitAll(Once, items[..n], inDeclarator, mode, st);
      VisitAllCollects(items[..n], inDeclarator, mode, st);
      VisitCollects(items[n], inDeclarator, mode, before);
    }
  }

  ghost predicate Distinct(xs: seq<string>) {
    forall i, j :: 0 <= i < j < |xs| ==> xs[i] != xs[j]
  }

  lemma {:induction false} VisitDistinct(p: Policy, item: Item, inDeclarator: bool, mode: Mode, st: State)
    requires Distinct(st.unresolved)
    ensures Distinct(Visit(p, item, inDeclarator, mode, st).unresolved)
    decreases item, 2
  {
    match item
    case Token(_, _) =>
    case Access(head, _) => VisitHeadDistinct(p, head, mode, st);
    case Node(kind, children) =>
      if kind.Block? {
        VisitTimesDistinct(p, if p.Once? then 1 else NodeCount(children), children, st);
      } else {
        VisitAllDistinct(p, children, kind.VariableDeclarator?, ModeOf(kind, mode), st);
      }
  }

  lemma {:induction false} VisitHeadDistinct(p: Policy, item: Item, mode: Mode, st: State)
    requires Distinct(st.unresolved)
    ensures Distinct(VisitHead(p, item, mode, st).unresolved)
    decreases item, 1
  {
    match item
    case Token(_, _) =>
    case Access(head, _) => VisitHeadDistinct(p, head, mode, st);
    case Node(kind, children) => VisitAllDistinct(p, children, kind.VariableDeclarator?, ModeOf(kind, mode), st);
  }

  lemma {:induction false} VisitAllDistinct(p: Policy, items: seq<Item>, inDeclarator: bool, mode: Mode, st: State)
    requires Distinct(st.unresolved)
    ensures Distinct(VisitAll(p, items, inDeclarator, mode, st).unresolved)
    decreases items, 0
  {
    if items != [] {
      var n := |items| - 1;
      VisitAllDistinct(p, items[..n], inDeclarator, mode, st);
      VisitDistinct(p, items[n], inDeclarator, mode, VisitAll(p, items[..n], inDeclarator, mode, st));
    }
  }

  lemma {:induction false} VisitTimesDistinct(p: Policy, times: nat, items: seq<Item>, st: State)
    requires Distinct(st.unresolved)
    ensures Distinct(VisitTimes(p, times, items, st).unresolved)
    decreases items, 1, times
  {
    if times > 0 {
      VisitTimesDistinct(p, times - 1, items, st);
      VisitAllDistinct(p, items, false, Common, VisitTimes(p, times - 1, items, st));
    }
  }

  // ---------------------------------------------------------------- the whole expression

  /** The child nodes of the compilation unit, each walked by ParseNode. */
  function AnalyzeRoots(p: Policy, roots: seq<Item>, st: State): (r: State)
    requires forall n <- roots :: n.Node?
  {
    if roots == [] then st
    else
      var n := |roots| - 1;
      VisitHead(p, roots[n], Common, AnalyzeRoots(p, roots[..n], st))
  }

  const START := State([], [])

  lemma {:induction false} RootsWalked(roots: seq<Item>)
    requires forall n <- roots :: n.Node? && BlocksBracketed(n)
    ensures var r := AnalyzeRoots(PerChild, roots, START);
      && r == AnalyzeRoots(Once, roots, START)
      && Distinct(r.unresolved)
      && Collects(START, FreeAll(roots, ROOT, {}), DeclaredAll(roots, ROOT), r)
  {
    if roots != [] {
      var n := |roots| - 1;
      var before := AnalyzeRoots(PerChild, roots[..n], START);
      RootsWalked(roots[..n]);
      assert Names(before.scope) == {} + DeclaredAll(roots[..n], ROOT);
      PerChildIsOnceHead(roots[n], Common, before);
      VisitHeadCollects(roots[n], Common, before);
      VisitHeadDistinct(PerChild, roots[n], Common, before);
    }
  }

  /** What the analyser of the source reports for an expression: each name once that has a use
      with no declaration of it in scope; and in scope are then the names that are declared in no
      inner frame. */
  lemma AnalysisExact(roots: seq<Item>)
    requires forall n <- roots :: n.Node? && BlocksBracketed(n)
    ensures var r := AnalyzeRoots(PerChild, roots, START);
      && r == AnalyzeRoots(Once, roots, START)
      && Distinct(r.unresolved)
      && (forall name :: name in r.unresolved <==> exists p :: FreeAt(roots, ROOT, p, name))
      && (forall name :: name in r.scope <==> exists q :: DeclaresClear(roots, ROOT, q, name))
  {
    RootsWalked(roots);
    var r := AnalyzeRoots(PerChild, roots, START);
    forall name
      ensures name in r.unresolved <==> exists p :: FreeAt(roots, ROOT, p, name)
      ensures name in r.scope <==> exists q :: DeclaresClear(roots, ROOT, q, name)
    {
      assert name in r.unresolved <==> name in Names(r.unresolved);
      assert name in r.scope <==> name in Names(r.scope);
      FreeOccurs(roots, ROOT, {}, name);
      DeclaredOccurs(roots, ROOT, name);
    }
  }

  // ---------------------------------------------------------------- the classes

  class FrameVars {
    var vars: seq<string>
    var varsInFrame: seq<nat>
    var curFrameVars: nat

    constructor ()
      ensures vars == [] && varsInFrame == [] && curFrameVars == 0
    {
      vars, varsInFrame, curFrameVars := [], [], 0;
    }

    method Add(name: string)
      modifies this
      ensures vars == old(vars) + [name] && curFrameVars == old(curFrameVars) + 1
      ensures varsInFrame == old(varsInFrame)
    {
      vars := vars + [name];
      curFrameVars := curFrameVars + 1;
    }

    method NewFrame()
      modifies this
      ensures varsInFrame == old(varsInFrame) + [old(curFrameVars)]
      ensures curFrameVars == 0 && vars == old(vars)
    {
      varsInFrame := varsInFrame + [curFrameVars];
      curFrameVars := 0;
    }

    method ExitFrame()
      requires curFrameVars <= |vars| && varsInFrame != []
      modifies this
      ensures vars == old(vars[..|vars| - curFrameVars])
      ensures curFrameVars == old(varsInFrame[|varsInFrame| - 1])
      ensures varsInFrame == old(varsInFrame[..|varsInFrame| - 1])
    {
      for i := 0 to curFrameVars
        invariant curFrameVars == old(curFrameVars) && varsInFrame == old(varsInFrame)
        invariant vars == old(vars)[..|old(vars)| - i]
      {
        vars := vars[..|vars| - 1];
      }
      curFrameVars := varsInFrame[|varsInFrame| - 1];
      varsInFrame := varsInFrame[..|varsInFrame| - 1];
    }

    predicate Contains(name: string)
      reads this
    {
      name in vars
    }
  }

  class SyntaxAnalyzer {
    var unresolvedSymbols: seq<string>
    const frameVars: FrameVars

    function Current(): State
      reads this, frameVars
    {
      State(unresolvedSymbols, frameVars.vars)
    }

    /** The current frame has grown by the names that are in scope now and were not before;
        the frames below it are as they were. */
    twostate predicate FrameGrows()
      reads this, frameVars
    {
      && old(frameVars.vars) <= frameVars.vars
      && frameVars.varsInFrame == old(frameVars.varsInFrame)
      && frameVars.curFrameVars - old(frameVars.curFrameVars) == |frameVars.vars| - |old(frameVars.vars)|
    }

    constructor (roots: seq<Item>)
      requires forall n <- roots :: n.Node?
      ensures Current() == AnalyzeRoots(PerChild, roots, START)
      ensures fresh(frameVars)
    {
      unresolvedSymbols := [];
      frameVars := new FrameVars();
      new;
      for i := 0 to |roots|
        invariant Current() == AnalyzeRoots(PerChild, roots[..i], START)
        invariant fresh(frameVars)
      {
        assert roots[..i + 1][..i] == roots[..i];
        ParseNode(roots[i], Common);
      }
      assert roots[..|roots|] == roots;
    }

    method ParseAccessNode(sn: Item, state: Mode)
      requires sn.Access?
      modifies this, frameVars
      ensures Current() == VisitHead(PerChild, sn, state, old(Current()))
      ensures FrameGrows()
      decreases sn, 0
    {
      var snt := sn.head;
      if snt.Access? {
        ParseAccessNode(snt, state);
      } else if snt.Node? {
        ParseNode(snt, state);
      } else {
        ParseCommonToken(snt, state);
      }
    }

    method ParseBlock(sn: Item)
      requires sn.Node? && sn.kind.Block?
      modifies this, frameVars
      ensures Current() == Visit(PerChild, sn, false, Common, old(Current()))
      ensures FrameGrows()
      decreases sn, 1
    {
      var children := sn.children;
      frameVars.NewFrame();
      label inner:
      for i := 0 to |children|
        invariant Current() == VisitTimes(PerChild, NodeCount(children[..i]), children, old(Current()))
        invariant frameVars.varsInFrame == old@inner(frameVars.varsInFrame)
        invariant old(frameVars.vars) <= frameVars.vars
        invariant frameVars.curFrameVars == |frameVars.vars| - |old(frameVars.vars)|
      {
        assert children[..i + 1][..i] == children[..i];
        if !children[i].Token? {
          ParseNode(sn, Common);
        }
      }
      assert children[..|children|] == children;
      frameVars.ExitFrame();
    }

    method ParseNode(sn: Item, state: Mode)
      requires sn.Node?
      modifies this, frameVars
      ensures Current() == VisitHead(PerChild, sn, state, old(Current()))
      ensures FrameGrows()
      decreases sn, 0
    {
      var inner := ModeOf(sn.kind, state);
      var items := sn.children;
      for i := 0 to |items|
        invariant Current() == VisitAll(PerChild, items[..i], sn.kind.VariableDeclarator?, inner, old(Current()))
        invariant FrameGrows()
      {
        var snt := items[i];
        assert items[..i + 1][..i] == items[..i];
        if snt.Access? {
          ParseAccessNode(snt, inner);
        } else if snt.Node? {
          if snt.kind.Block? {
            ParseBlock(snt);
          } else {
            ParseNode(snt, inner);
          }
        } else if sn.kind.VariableDeclarator? {
          ParseDeclarator(snt);
        } else {
          ParseCommonToken(snt, inner);
        }
      }
      assert items[..|items|] == items;
    }

    method ParseCommonToken(st: Item, state: Mode)
      requires st.Token?
      modifies this
      ensures Current() == VisitHead(PerChild, st, state, old(Current()))
    {
      if !state.Common? {
        return;
      }
      if st.isIdentifier && st.text !in unresolvedSymbols && !frameVars.Contains(st.text) {
        unresolvedSymbols := unresolvedSymbols + [st.text];
      }
    }

    method ParseDeclarator(st: Item)
      requires st.Token?
      modifies frameVars
      ensures Current() == Visit(PerChild, st, true, Common, old(Current()))
      ensures FrameGrows()
    {
      if st.isIdentifier && !frameVars.Contains(st.text) {
        frameVars.Add(st.text);
      }
    }
  }
}
