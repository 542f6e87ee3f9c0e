/**
 Type names in the expression evaluator: ParseType, ParseGenericParams and
 GatherParameters, and the recursion of GetType over generic arguments.  Printing a type
 and reading it back gives the type.
 */
module TypeNames {
  import opened Text

  type Rank = r: int | 1 <= r witness 1

  /** A type name: dotted parts, each with generic arguments, then array ranks. */
  datatype TypeName = TypeName(parts: seq<Part>, ranks: seq<Rank>)
  datatype Part = Part(name: string, args: seq<TypeName>)

  const SPECIAL: set<char> := {'.', '[', ']', ',', '<', '>', ' '}

  predicate Plain(s: string) {
    Without(s, SPECIAL)
  }

  predicate WellFormed(t: TypeName) {
    t.parts != [] && forall p <- t.parts :: WellFormedPart(p)
  }

  predicate WellFormedPart(p: Part) {
    Plain(p.name) && forall a <- p.args :: WellFormed(a)
  }

  // ---------------------------------------------------------------- printing

  function Show(t: TypeName): string
    decreases t, 0
  {
    ShowParts(t.parts) + ShowRanks(t.ranks)
  }

  function ShowParts(ps: seq<Part>): string
    decreases ps, 0
  {
    if ps == [] then ""
    else if |ps| == 1 then ShowPart(ps[0])
    else ShowParts(ps[..|ps| - 1]) + ("." + ShowPart(ps[|ps| - 1]))
  }

  function ShowPart(p: Part): string
    decreases p, 0
  {
    if p.args == [] then p.name else p.name + "<" + ShowArgs(p.args) + ">"
  }

  function ShowArgs(ts: seq<TypeName>): string
    decreases ts, 0
  {
    if ts == [] then ""
    else if |ts| == 1 then Show(ts[0])
    else ShowArgs(ts[..|ts| - 1]) + ("," + Show(ts[|ts| - 1]))
  }

  function ShowRanks(ranks: seq<Rank>): string {
    if ranks == [] then "" else ShowRanks(ranks[..|ranks| - 1]) + ShowRank(ranks[|ranks| - 1])
  }

  function ShowRank(r: Rank): string {
    "[" + Commas(r - 1) + "]"
  }

  function Commas(n: nat): (s: string)
    ensures |s| == n && forall i | 0 <= i < n :: s[i] == ','
  {
    if n == 0 then "" else Commas(n - 1) + ","
  }

  // ---------------------------------------------------------------- closed text

  /** Opening minus closing angle brackets. */
  function Depth(s: string): int {
    if s == [] then 0
    else Depth(s[..|s| - 1]) + match s[|s| - 1] { case '<' => 1 case '>' => -1 case _ => 0 }
  }

  /** Whether the last square bracket opens. */
  predicate InArray(s: string) {
    s != [] && (s[|s| - 1] == '[' || (s[|s| - 1] != ']' && InArray(s[..|s| - 1])))
  }

  /** Text that a bracket-counting scanner leaves as it entered it. */
  ghost predicate Closed(s: string) {
    && Without(s, {' '})
    && (forall k | 0 <= k <= |s| :: Depth(s[..k]) >= 0)
    && Depth(s) == 0
    && !InArray(s)
  }

  lemma {:induction false} DepthConcat(a: string, b: string)
    ensures Depth(a + b) == Depth(a) + Depth(b)
  {
    if b == [] {
      assert a + b == a;
    } else {
      var n := |b| - 1;
      DepthConcat(a, b[..n]);
      LastOf(a, b);
    }
  }

  lemma {:induction false} InArrayConcat(a: string, b: string)
    requires !InArray(a)
    ensures InArray(a + b) == InArray(b)
  {
    if b == [] {
      assert a + b == a;
    } else {
      InArrayConcat(a, b[..|b| - 1]);
      LastOf(a, b);
    }
  }

  lemma {:induction false} PlainClosed(s: string)
    requires Without(s, {'[', '<', '>', ' '})
    ensures Closed(s)
  {
    if s != [] {
      var n := |s| - 1;
      PlainClosed(s[..n]);
      forall k | 0 <= k <= |s| ensures Depth(s[..k]) >= 0 {
        if k <= n { assert s[..n][..k] == s[..k]; } else { assert s[..k] == s; }
      }
    }
  }

  lemma ConcatClosed(a: string, b: string)
    requires Closed(a) && Closed(b)
    ensures Closed(a + b)
  {
    DepthConcat(a, b);
    InArrayConcat(a, b);
    forall k | 0 <= k <= |a + b| ensures Depth((a + b)[..k]) >= 0 {
      if k <= |a| {
        assert (a + b)[..k] == a[..k];
      } else {
        assert (a + b)[..k] == a + b[..k - |a|];
        DepthConcat(a, b[..k - |a|]);
      }
    }
  }

  lemma AngleClosed(s: string)
    requires Closed(s)
    ensures Closed("<" + s + ">")
  {
    var t := "<" + s + ">";
    assert !InArray("<") && Depth("<") == 1 by { assert "<"[..0] == []; }
    assert t[..|t| - 1] == "<" + s;
    DepthConcat("<", s);
    InArrayConcat("<", s);
    forall k | 0 <= k <= |t| ensures Depth(t[..k]) >= 0 {
      if k == |t| {
        assert t[..k] == t;
      } else if k > 0 {
        assert t[..k] == "<" + s[..k - 1];
        DepthConcat("<", s[..k - 1]);
      }
    }
  }

  lemma RankClosed(r: Rank)
    ensures Closed(ShowRank(r))
  {
    var commas := Commas(r - 1);
    assert ShowRank(r) == "[" + commas + "]";
    FlatDepth(ShowRank(r));
    forall k | 0 <= k <= r + 1 ensures Depth(ShowRank(r)[..k]) >= 0 {
      FlatDepth(ShowRank(r)[..k]);
    }
  }

  lemma {:induction false} FlatDepth(s: string)
    requires Without(s, {'<', '>'})
    ensures Depth(s) == 0
  {
    if s != [] { FlatDepth(s[..|s| - 1]); }
  }

  lemma {:induction false} RanksClosed(ranks: seq<Rank>)
    ensures Closed(ShowRanks(ranks))
  {
    if ranks == [] {
      PlainClosed("");
    } else {
      RanksClosed(ranks[..|ranks| - 1]);
      RankClosed(ranks[|ranks| - 1]);
      ConcatClosed(ShowRanks(ranks[..|ranks| - 1]), ShowRank(ranks[|ranks| - 1]));
    }
  }

  lemma {:induction false} ShowClosed(t: TypeName)
    requires WellFormed(t)
    ensures Closed(Show(t))
    decreases t, 0
  {
    ShowPartsClosed(t.parts);
    RanksClosed(t.ranks);
    ConcatClosed(ShowParts(t.parts), ShowRanks(t.ranks));
  }

  lemma {:induction false} ShowPartsClosed(ps: seq<Part>)
    requires forall p <- ps :: WellFormedPart(p)
    ensures Closed(ShowParts(ps))
    decreases ps, 0
  {
    PlainClosed("");
    PlainClosed(".");
    if ps != [] {
      var n := |ps| - 1;
      ShowPartsClosed(ps[..n]);
      ShowPartClosed(ps[n]);
      ConcatClosed(".", ShowPart(ps[n]));
      ConcatClosed(ShowParts(ps[..n]), "." + ShowPart(ps[n]));
    }
  }

  lemma {:induction false} ShowPartClosed(p: Part)
    requires WellFormedPart(p)
    ensures Closed(ShowPart(p))
    decreases p, 0
  {
    PlainClosed(p.name);
    if p.args != [] {
      ShowArgsClosed(p.args);
      AngleClosed(ShowArgs(p.args));
      var angle := "<" + ShowArgs(p.args) + ">";
      ConcatClosed(p.name, angle);
      assert p.name + angle == ShowPart(p);
    }
  }

  lemma {:induction false} ShowArgsClosed(ts: seq<TypeName>)
    requires forall t <- ts :: WellFormed(t)
    ensures Closed(ShowArgs(ts))
    decreases ts, 0
  {
    PlainClosed("");
    PlainClosed(",");
    if ts != [] {
      var n := |ts| - 1;
      ShowArgsClosed(ts[..n]);
      ShowClosed(ts[n]);
      ConcatClosed(",", Show(ts[n]));
      ConcatClosed(ShowArgs(ts[..n]), "," + Show(ts[n]));
    }
  }

  // ---------------------------------------------------------------- ParseType

  function AppendLast(xs: seq<string>, s: string): (r: seq<string>)
    requires xs != []
    ensures r != []
  {
    xs[..|xs| - 1] + [xs[|xs| - 1] + s]
  }

  /** The variables of ParseType's loop. */
  datatype TypeScan = TypeScan(result: seq<string>, ranks: seq<Rank>, depth: int)

  const TYPE_START := TypeScan([""], [], 0)

  function TypeStep(st: TypeScan, c: char): (r: TypeScan)
    requires st.result != []
    ensures r.result != []
  {
    var kept := st.(result := AppendLast(st.result, [c]));
    match c
    case '.' => if st.depth == 0 then st.(result := st.result + [""]) else kept
    case '[' => if st.depth == 0 then st.(ranks := st.ranks + [1]) else kept
    case ']' => if st.depth == 0 then st else kept
    case ',' =>
      if st.depth != 0 then kept
      else if st.ranks == [] then st
      else st.(ranks := BumpLast(st.ranks, 1))
    case '<' => kept.(depth := st.depth + 1)
    case '>' => kept.(depth := st.depth - 1)
    case ' ' => st
    case _ => kept
  }

  function ScanType(s: string, st: TypeScan): (r: TypeScan)
    requires st.result != []
    ensures r.result != []
  {
    if s == [] then st else TypeStep(ScanType(s[..|s| - 1], st), s[|s| - 1])
  }

  method ParseType(expression: string) returns (result: seq<string>, ranks: seq<Rank>)
    ensures result == ScanType(expression, TYPE_START).result
    ensures ranks == ScanType(expression, TYPE_START).ranks
  {
    result, ranks := [""], [];
    var paramDepth := 0;
    for i := 0 to |expression|
      invariant TypeScan(result, ranks, paramDepth) == ScanType(expression[..i], TYPE_START)
    {
      var c := expression[i];
      assert expression[..i + 1][..i] == expression[..i];
      if c == '.' && paramDepth == 0 {
        result := result + [""];
        continue;
      } else if c == '[' && paramDepth == 0 {
        ranks := ranks + [1];
        continue;
      } else if c == ']' && paramDepth == 0 {
        continue;
      } else if c == ',' && paramDepth == 0 {
        if ranks != [] {
          ranks := BumpLast(ranks, 1);
        }
        continue;
      } else if c == '<' {
        paramDepth := paramDepth + 1;
      } else if c == '>' {
        paramDepth := paramDepth - 1;
      } else if c == ' ' {
        continue;
      }
      result := AppendLast(result, [c]);
    }
    assert expression[..|expression|] == expression;
  }

  lemma {:induction false} ScanTypeConcat(a: string, b: string, st: TypeScan)
    requires st.result != []
    ensures ScanType(a + b, st) == ScanType(b, ScanType(a, st))
  {
    if b == [] {
      assert a + b == a;
    } else {
      ScanTypeConcat(a, b[..|b| - 1], st);
      LastOf(a, b);
    }
  }

  lemma ScanTypeOne(c: char, st: TypeScan)
    requires st.result != []
    ensures ScanType([c], st) == TypeStep(st, c)
  {
    assert [c][..0] == [];
  }

  lemma AppendTwice(xs: seq<string>, a: string, b: string)
    requires xs != []
    ensures AppendLast(AppendLast(xs, a), b) == AppendLast(xs, a + b)
  {
    assert xs[|xs| - 1] + a + b == xs[|xs| - 1] + (a + b);
  }

  lemma TypeStepInside(st: TypeScan, c: char)
    requires st.result != [] && st.depth >= 1 && c != ' '
    ensures TypeStep(st, c) == TypeScan(AppendLast(st.result, [c]), st.ranks, st.depth + Depth([c]))
  {
    assert [c][..0] == [];
  }

  /** Inside angle brackets everything but spaces is kept. */
  lemma {:induction false} ScanTypeInside(s: string, st: TypeScan)
    requires st.result != [] && Without(s, {' '})
    requires forall k | 0 <= k <= |s| :: st.depth + Depth(s[..k]) >= 1
    ensures ScanType(s, st) == TypeScan(AppendLast(st.result, s), st.ranks, st.depth + Depth(s))
  {
    if s == [] {
      assert st.result[|st.result| - 1] + s == st.result[|st.result| - 1];
      assert AppendLast(st.result, s) == st.result;
    } else {
      var n := |s| - 1;
      var init, last := s[..n], [s[n]];
      forall k | 0 <= k <= n ensures st.depth + Depth(init[..k]) >= 1 {
        assert init[..k] == s[..k];
      }
      ScanTypeInside(init, st);
      assert st.depth + Depth(s[..n]) >= 1;
      TypeStepInside(ScanType(init, st), s[n]);
      AppendTwice(st.result, init, last);
      assert init + last == s;
      DepthConcat(init, last);
    }
  }

  lemma {:induction false} ScanTypePlain(s: string, st: TypeScan)
    requires st.result != [] && Plain(s)
    ensures ScanType(s, st) == st.(result := AppendLast(st.result, s))
  {
    if s == [] {
      assert st.result[|st.result| - 1] + s == st.result[|st.result| - 1];
      assert AppendLast(st.result, s) == st.result;
    } else {
      var n := |s| - 1;
      ScanTypePlain(s[..n], st);
      AppendTwice(st.result, s[..n], [s[n]]);
      assert s[..n] + [s[n]] == s;
    }
  }

  /** Reading `s` appends all of it to the last part and changes nothing else. */
  ghost predicate TypeKept(s: string, st: TypeScan)
    requires st.result != []
  {
    ScanType(s, st) == st.(result := AppendLast(st.result, s))
  }

  lemma TypeKeptConcat(a: string, b: string, st: TypeScan)
    requires st.result != []
    requires TypeKept(a, st) && TypeKept(b, st.(result := AppendLast(st.result, a)))
    ensures TypeKept(a + b, st)
  {
    ScanTypeConcat(a, b, st);
    AppendTwice(st.result, a, b);
  }

  lemma ScanTypeOpened(text: string, st: TypeScan)
    requires Closed(text) && st.result != [] && st.depth == 0
    ensures ScanType("<" + text, st) == TypeScan(AppendLast(st.result, "<" + text), st.ranks, 1)
  {
    ScanTypeConcat("<", text, st);
    ScanTypeOne('<', st);
    ScanTypeInside(text, TypeScan(AppendLast(st.result, "<"), st.ranks, 1));
    AppendTwice(st.result, "<", text);
  }

  lemma ScanTypeAngle(text: string, st: TypeScan)
    requires Closed(text) && st.result != [] && st.depth == 0
    ensures TypeKept("<" + text + ">", st)
  {
    ScanTypeConcat("<" + text, ">", st);
    ScanTypeOpened(text, st);
    ScanTypeOne('>', TypeScan(AppendLast(st.result, "<" + text), st.ranks, 1));
    AppendTwice(st.result, "<" + text, ">");
  }

  lemma ScanTypePart(p: Part, st: TypeScan)
    requires WellFormedPart(p) && st.result != [] && st.depth == 0
    ensures TypeKept(ShowPart(p), st)
  {
    ScanTypePlain(p.name, st);
    if p.args != [] {
      ShowArgsClosed(p.args);
      var angle := "<" + ShowArgs(p.args) + ">";
      ScanTypeAngle(ShowArgs(p.args), st.(result := AppendLast(st.result, p.name)));
      TypeKeptConcat(p.name, angle, st);
      assert p.name + angle == ShowPart(p);
    }
  }

  function PartTexts(ps: seq<Part>): (r: seq<string>)
    ensures |r| == |ps|
  {
    seq(|ps|, i requires 0 <= i < |ps| => ShowPart(ps[i]))
  }

  lemma ScanTypeFirst(p: Part)
    requires WellFormedPart(p)
    ensures ScanType(ShowPart(p), TYPE_START) == TypeScan([ShowPart(p)], [], 0)
  {
    ScanTypePart(p, TYPE_START);
    assert "" + ShowPart(p) == ShowPart(p);
    assert AppendLast([""], ShowPart(p)) == [ShowPart(p)];
  }

  lemma ScanTypeNext(done: seq<string>, p: Part)
    requires WellFormedPart(p) && done != []
    ensures ScanType("." + ShowPart(p), TypeScan(done, [], 0)) == TypeScan(done + [ShowPart(p)], [], 0)
  {
    var dotted := TypeScan(done + [""], [], 0);
    ScanTypeConcat(".", ShowPart(p), TypeScan(done, [], 0));
    ScanTypePart(p, dotted);
    assert "" + ShowPart(p) == ShowPart(p);
    assert AppendLast(dotted.result, ShowPart(p)) == done + [ShowPart(p)];
  }

  lemma {:induction false} ScanTypeParts(ps: seq<Part>)
    requires ps != [] && forall p <- ps :: WellFormedPart(p)
    ensures ScanType(ShowParts(ps), TYPE_START) == TypeScan(PartTexts(ps), [], 0)
  {
    var init, last := ps[..|ps| - 1], ps[|ps| - 1];
    assert PartTexts(ps) == PartTexts(init) + [ShowPart(last)];
    if init == [] {
      ScanTypeFirst(last);
    } else {
      ScanTypeParts(init);
      ScanTypeNext(PartTexts(init), last);
      ScanTypeConcat(ShowParts(init), "." + ShowPart(last), TYPE_START);
    }
  }

  function BumpLast(ranks: seq<Rank>, n: nat): (r: seq<Rank>)
    requires ranks != []
    ensures |r| == |ranks|
  {
    ranks[|ranks| - 1 := ranks[|ranks| - 1] + n]
  }

  lemma {:induction false} ScanTypeCommas(n: nat, st: TypeScan)
    requires st.result != [] && st.depth == 0 && st.ranks != []
    ensures ScanType(Commas(n), st) == st.(ranks := BumpLast(st.ranks, n))
  {
    if n == 0 {
      assert BumpLast(st.ranks, 0) == st.ranks;
    } else {
      ScanTypeCommas(n - 1, st);
      ScanTypeConcat(Commas(n - 1), ",", st);
      assert BumpLast(BumpLast(st.ranks, n - 1), 1) == BumpLast(st.ranks, n);
    }
  }

  lemma BumpNew(ranks: seq<Rank>, r: Rank)
    ensures BumpLast(ranks + [1], r - 1) == ranks + [r]
  {
  }

  lemma ScanTypeOpenRank(r: Rank, st: TypeScan)
    requires st.result != [] && st.depth == 0
    ensures ScanType("[" + Commas(r - 1), st) == st.(ranks := st.ranks + [r])
  {
    var commas, started := Commas(r - 1), st.(ranks := st.ranks + [1]);
    assert ScanType("[", st) == started by { ScanTypeOne('[', st); }
    assert ScanType(commas, started) == st.(ranks := st.ranks + [r]) by {
      ScanTypeCommas(r - 1, started);
      BumpNew(st.ranks, r);
    }
    ScanTypeConcat("[", commas, st);
  }

  lemma ScanTypeRank(r: Rank, st: TypeScan)
    requires st.result != [] && st.depth == 0
    ensures ScanType(ShowRank(r), st) == st.(ranks := st.ranks + [r])
  {
    ScanTypeOpenRank(r, st);
    ScanTypeConcat("[" + Commas(r - 1), "]", st);
  }

  lemma {:induction false} ScanTypeRanks(ranks: seq<Rank>, st: TypeScan)
    requires st.result != [] && st.depth == 0 && st.ranks == []
    ensures ScanType(ShowRanks(ranks), st) == st.(ranks := ranks)
  {
    if ranks != [] {
      var n := |ranks| - 1;
      ScanTypeRanks(ranks[..n], st);
      ScanTypeConcat(ShowRanks(ranks[..n]), ShowRank(ranks[n]), st);
      ScanTypeRank(ranks[n], st.(ranks := ranks[..n]));
    }
  }

  /** ParseType splits a printed type into its printed parts and its ranks. */
  lemma ParseTypeOfShow(t: TypeName)
    requires WellFormed(t)
    ensures ScanType(Show(t), TYPE_START) == TypeScan(PartTexts(t.parts), t.ranks, 0)
  {
    ScanTypeParts(t.parts);
    ScanTypeConcat(ShowParts(t.parts), ShowRanks(t.ranks), TYPE_START);
    ScanTypeRanks(t.ranks, TypeScan(PartTexts(t.parts), [], 0));
  }

  function Squeeze(s: string): string {
    if s == [] then ""
    else Squeeze(s[..|s| - 1]) + if s[|s| - 1] == ' ' then "" else [s[|s| - 1]]
  }

  /** Spaces anywhere in the text make no difference. */
  lemma {:induction false} SpacesIgnored(s: string, st: TypeScan)
    requires st.result != []
    ensures ScanType(s, st) == ScanType(Squeeze(s), st)
  {
    if s != [] {
      var n := |s| - 1;
      SpacesIgnored(s[..n], st);
      if s[n] == ' ' {
        assert Squeeze(s) == Squeeze(s[..n]);
      } else {
        ScanTypeConcat(Squeeze(s[..n]), [s[n]], st);
        ScanTypeOne(s[n], ScanType(s[..n], st));
      }
    }
  }

  lemma StepLonger(st: TypeScan, c: char, n: nat)
    requires st.result != [] && forall part <- st.result :: |part| <= n
    ensures forall part <- TypeStep(st, c).result :: |part| <= n + 1
  {
  }

  lemma {:induction false} PartsNoLonger(s: string)
    ensures forall part <- ScanType(s, TYPE_START).result :: |part| <= |s|
  {
    if s != [] {
      PartsNoLonger(s[..|s| - 1]);
      StepLonger(ScanType(s[..|s| - 1], TYPE_START), s[|s| - 1], |s| - 1);
    }
  }

  // ---------------------------------------------------------------- ParseGenericParams

  /** The variables of ParseGenericParams' loop. */
  datatype ArgScan = ArgScan(result: seq<string>, depth: int, inArray: bool)

  const ARG_START := ArgScan([""], 0, false)

  function ArgStep(st: ArgScan, c: char): (r: ArgScan)
    requires st.result != []
    ensures r.result != []
  {
    var kept := st.(result := AppendLast(st.result, [c]));
    match c
    case ',' => if st.depth == 1 && !st.inArray then st.(result := st.result + [""]) else kept
    case '[' => kept.(inArray := true)
    case ']' => kept.(inArray := false)
    case '<' => if st.depth == 0 then st.(depth := 1) else kept.(depth := st.depth + 1)
    case '>' => if st.depth == 1 then st.(depth := 0) else kept.(depth := st.depth - 1)
    case _ => kept
  }

  function ScanArgs(s: string, st: ArgScan): (r: ArgScan)
    requires st.result != []
    ensures r.result != []
  {
    if s == [] then st else ArgStep(ScanArgs(s[..|s| - 1], st), s[|s| - 1])
  }

  /** The arguments of one part, and its metadata name. */
  function ArgsOf(part: string): seq<string> {
    var start := Find(part, '<');
    if start == |part| then [] else ScanArgs(part[start..], ARG_START).result
  }

  function NameOf(part: string): string {
    var start := Find(part, '<');
    if start == |part| then part else part[..start] + "`" + Decimal(|ArgsOf(part)|)
  }

  lemma ScanArgsUpTo(s: string, i: nat, st: ArgScan)
    requires i < |s| && st.result != []
    ensures ScanArgs(s[..i + 1], st) == ArgStep(ScanArgs(s[..i], st), s[i])
  {
    assert s[..i + 1][..i] == s[..i];
  }

  /** The loop over the text from the opening bracket on. */
  method ScanParams(text: string) returns (result: seq<string>)
    ensures result == ScanArgs(text, ARG_START).result
  {
    var paramDepth, inArray := 0, false;
    result := [""];
    for i := 0 to |text|
      invariant ArgScan(result, paramDepth, inArray) == ScanArgs(text[..i], ARG_START)
    {
      var c := text[i];
      ScanArgsUpTo(text, i, ARG_START);
      var separates, bracket := false, false;
      match c {
        case ',' => separates := paramDepth == 1 && !inArray;
        case '[' => inArray := true;
        case ']' => inArray := false;
        case '<' =>
          paramDepth := paramDepth + 1;
          bracket := paramDepth == 1;
        case '>' =>
          paramDepth := paramDepth - 1;
          bracket := paramDepth == 0;
        case _ =>
      }
      if separates {
        result := result + [""];
      } else if !bracket {
        result := AppendLast(result, [c]);
      }
    }
    assert text[..|text|] == text;
  }

  method ParseGenericParams(part: string) returns (result: seq<string>, typeName: string)
    ensures result == ArgsOf(part) && typeName == NameOf(part)
  {
    var start := Find(part, '<');
    if start == |part| {
      return [], part;
    }
    result := ScanParams(part[start..]);
    typeName := part[..start] + "`" + Decimal(|result|);
  }

  lemma {:induction false} ScanArgsConcat(a: string, b: string, st: ArgScan)
    requires st.result != []
    ensures ScanArgs(a + b, st) == ScanArgs(b, ScanArgs(a, st))
  {
    if b == [] {
      assert a + b == a;
    } else {
      ScanArgsConcat(a, b[..|b| - 1], st);
      LastOf(a, b);
    }
  }

  /** Two brackets deep everything is kept, and the array flag follows the text. */
  lemma {:induction false} ScanArgsDeep(s: string, st: ArgScan)
    requires st.result != [] && !st.inArray
    requires forall k | 0 <= k <= |s| :: st.depth + Depth(s[..k]) >= 2
    ensures ScanArgs(s, st) == ArgScan(AppendLast(st.result, s), st.depth + Depth(s), InArray(s))
  {
    if s == [] {
      assert st.result[|st.result| - 1] + s == st.result[|st.result| - 1];
      assert AppendLast(st.result, s) == st.result;
    } else {
      var n := |s| - 1;
      forall k | 0 <= k <= n ensures st.depth + Depth(s[..n][..k]) >= 2 {
        assert s[..n][..k] == s[..k];
      }
      ScanArgsDeep(s[..n], st);
      AppendTwice(st.result, s[..n], [s[n]]);
      assert s[..n] + [s[n]] == s;
      assert st.depth + Depth(s[..n]) >= 2;
      assert s[..|s|] == s && st.depth + Depth(s) >= 2;
    }
  }

  /** Text without brackets or commas is kept at any depth. */
  lemma {:induction false} ScanArgsFlat(s: string, st: ArgScan)
    requires st.result != []
    requires forall i | 0 <= i < |s| :: s[i] !in {',', '[', ']', '<', '>'} || (s[i] == ',' && st.inArray)
    ensures ScanArgs(s, st) == st.(result := AppendLast(st.result, s))
  {
    if s == [] {
      assert st.result[|st.result| - 1] + s == st.result[|st.result| - 1];
      assert AppendLast(st.result, s) == st.result;
    } else {
      var n := |s| - 1;
      ScanArgsFlat(s[..n], st);
      AppendTwice(st.result, s[..n], [s[n]]);
      assert s[..n] + [s[n]] == s;
    }
  }

  /** Reading `s` keeps all of it and changes nothing else. */
  ghost predicate ArgKept(s: string, st: ArgScan)
    requires st.result != []
  {
    ScanArgs(s, st) == st.(result := AppendLast(st.result, s))
  }

  lemma ArgKeptConcat(a: string, b: string, st: ArgScan)
    requires st.result != []
    requires ArgKept(a, st) && ArgKept(b, st.(result := AppendLast(st.result, a)))
    ensures ArgKept(a + b, st)
  {
    ScanArgsConcat(a, b, st);
    AppendTwice(st.result, a, b);
  }

  ghost predicate AtArgument(st: ArgScan) {
    st.result != [] && st.depth == 1 && !st.inArray
  }

  lemma ScanArgsOne(c: char, st: ArgScan)
    requires st.result != []
    ensures ScanArgs([c], st) == ArgStep(st, c)
  {
    assert [c][..0] == [];
  }

  lemma ScanArgsOpened(text: string, st: ArgScan)
    requires Closed(text) && AtArgument(st)
    ensures ScanArgs("<" + text, st) == ArgScan(AppendLast(st.result, "<" + text), 2, false)
  {
    ScanArgsConcat("<", text, st);
    ScanArgsOne('<', st);
    ScanArgsDeep(text, ArgScan(AppendLast(st.result, "<"), 2, false));
    AppendTwice(st.result, "<", text);
  }

  lemma ScanArgsAngle(text: string, st: ArgScan)
    requires Closed(text) && AtArgument(st)
    ensures ArgKept("<" + text + ">", st)
  {
    ScanArgsConcat("<" + text, ">", st);
    ScanArgsOpened(text, st);
    ScanArgsOne('>', ArgScan(AppendLast(st.result, "<" + text), 2, false));
    AppendTwice(st.result, "<" + text, ">");
  }

  lemma ScanArgsPart(p: Part, st: ArgScan)
    requires WellFormedPart(p) && AtArgument(st)
    ensures ArgKept(ShowPart(p), st)
  {
    ScanArgsFlat(p.name, st);
    if p.args != [] {
      ShowArgsClosed(p.args);
      var angle := "<" + ShowArgs(p.args) + ">";
      ScanArgsAngle(ShowArgs(p.args), st.(result := AppendLast(st.result, p.name)));
      ArgKeptConcat(p.name, angle, st);
      assert p.name + angle == ShowPart(p);
    }
  }

  lemma {:induction false} ScanArgsParts(ps: seq<Part>, st: ArgScan)
    requires (forall p <- ps :: WellFormedPart(p)) && AtArgument(st)
    ensures ArgKept(ShowParts(ps), st)
  {
    if ps == [] {
      ScanArgsFlat("", st);
    } else if |ps| == 1 {
      ScanArgsPart(ps[0], st);
    } else {
      var n := |ps| - 1;
      var front, last := ShowParts(ps[..n]), ShowPart(ps[n]);
      ScanArgsParts(ps[..n], st);
      var after := st.(result := AppendLast(st.result, front));
      ScanArgsFlat(".", after);
      ScanArgsPart(ps[n], after.(result := AppendLast(after.result, ".")));
      ArgKeptConcat(".", last, after);
      ArgKeptConcat(front, "." + last, st);
    }
  }

  lemma ScanArgsRank(r: Rank, st: ArgScan)
    requires AtArgument(st)
    ensures ArgKept(ShowRank(r), st)
  {
    var commas := Commas(r - 1);
    var inside := ArgScan(AppendLast(st.result, "["), 1, true);
    ScanArgsFlat(commas, inside);
    ScanArgsConcat("[", commas, st);
    AppendTwice(st.result, "[", commas);
    assert ShowRank(r)[..|ShowRank(r)| - 1] == "[" + commas;
    AppendTwice(st.result, "[" + commas, "]");
  }

  lemma {:induction false} ScanArgsRanks(ranks: seq<Rank>, st: ArgScan)
    requires AtArgument(st)
    ensures ArgKept(ShowRanks(ranks), st)
  {
    if ranks == [] {
      ScanArgsFlat("", st);
    } else {
      var n := |ranks| - 1;
      ScanArgsRanks(ranks[..n], st);
      ScanArgsRank(ranks[n], st.(result := AppendLast(st.result, ShowRanks(ranks[..n]))));
      ArgKeptConcat(ShowRanks(ranks[..n]), ShowRank(ranks[n]), st);
    }
  }

  /** Depth and array flag return to their start over every printed argument. */
  lemma ScanArgsShow(t: TypeName, st: ArgScan)
    requires WellFormed(t) && AtArgument(st)
    ensures ScanArgs(Show(t), st) == st.(result := AppendLast(st.result, Show(t)))
  {
    ScanArgsParts(t.parts, st);
    ScanArgsRanks(t.ranks, st.(result := AppendLast(st.result, ShowParts(t.parts))));
    ArgKeptConcat(ShowParts(t.parts), ShowRanks(t.ranks), st);
  }

  function Texts(ts: seq<TypeName>): (r: seq<string>)
    ensures |r| == |ts|
  {
    seq(|ts|, i requires 0 <= i < |ts| => Show(ts[i]))
  }

  /** A further printed argument, after a comma. */
  lemma ScanArgsNext(done: seq<string>, t: TypeName)
    requires WellFormed(t) && done != []
    ensures ScanArgs("," + Show(t), ArgScan(done, 1, false)) == ArgScan(done + [Show(t)], 1, false)
  {
    var next := ArgScan(done + [""], 1, false);
    ScanArgsConcat(",", Show(t), ArgScan(done, 1, false));
    ScanArgsShow(t, next);
    assert "" + Show(t) == Show(t);
    assert AppendLast(next.result, Show(t)) == done + [Show(t)];
  }

  lemma ScanArgsFirst(t: TypeName)
    requires WellFormed(t)
    ensures ScanArgs(Show(t), ArgScan([""], 1, false)) == ArgScan([Show(t)], 1, false)
  {
    ScanArgsShow(t, ArgScan([""], 1, false));
    assert "" + Show(t) == Show(t);
    assert AppendLast([""], Show(t)) == [Show(t)];
  }

  lemma {:induction false} ScanArgsList(ts: seq<TypeName>)
    requires ts != [] && forall t <- ts :: WellFormed(t)
    ensures ScanArgs(ShowArgs(ts), ArgScan([""], 1, false)) == ArgScan(Texts(ts), 1, false)
  {
    var init, last := ts[..|ts| - 1], ts[|ts| - 1];
    assert Texts(ts) == Texts(init) + [Show(last)];
    if init == [] {
      ScanArgsFirst(last);
    } else {
      ScanArgsList(init);
      ScanArgsNext(Texts(init), last);
      ScanArgsConcat(ShowArgs(init), "," + Show(last), ArgScan([""], 1, false));
    }
  }

  /** ParseGenericParams gives the printed arguments in order, and the arity-marked name. */
  lemma ParseGenericParamsOfShow(p: Part)
    requires WellFormedPart(p)
    ensures ArgsOf(ShowPart(p)) == Texts(p.args)
    ensures NameOf(ShowPart(p)) == if p.args == [] then p.name else p.name + "`" + Decimal(|p.args|)
  {
    if p.args == [] {
      FindAfterPlain(p.name, "");
      assert p.name + "" == p.name;
      assert Texts(p.args) == [];
    } else {
      var rest := "<" + ShowArgs(p.args) + ">";
      FindAfterPlain(p.name, rest);
      SplitAt(p.name, rest);
      assert ShowPart(p) == p.name + rest;
      ScanArgsBracketed(p.args);
    }
  }

  lemma ScanArgsBracketed(ts: seq<TypeName>)
    requires ts != [] && forall t <- ts :: WellFormed(t)
    ensures ScanArgs("<" + ShowArgs(ts) + ">", ARG_START) == ArgScan(Texts(ts), 0, false)
  {
    var text := ShowArgs(ts);
    ScanArgsList(ts);
    ScanArgsConcat("<", text, ARG_START);
    ScanArgsConcat("<" + text, ">", ARG_START);
  }

  lemma SplitAt(a: string, b: string)
    ensures (a + b)[..|a|] == a && (a + b)[|a|..] == b
  {
  }

  lemma FindAfterPlain(name: string, rest: string)
    requires Without(name, {'<'}) && (rest == [] || rest[0] == '<')
    ensures Find(name + rest, '<') == |name|
  {
    var text := name + rest;
    var k := Find(text, '<');
    assert forall i | 0 <= i < |name| :: text[i] == name[i];
    assert rest != [] ==> text[|name|] == '<';
  }

  /** Whatever the text, every argument is strictly shorter than its part. */
  lemma ArgsShorter(part: string)
    ensures forall a <- ArgsOf(part) :: |a| < |part|
  {
    var start := Find(part, '<');
    if start < |part| { ScannedShorter(part[start..]); }
  }

  lemma {:induction false} ScannedShorter(s: string)
    requires s != [] && s[0] == '<'
    ensures forall a <- ScanArgs(s, ARG_START).result :: |a| < |s|
  {
    if |s| > 1 {
      ScannedShorter(s[..|s| - 1]);
      ArgsLonger(ScanArgs(s[..|s| - 1], ARG_START), s[|s| - 1], |s| - 1);
    } else {
      assert s[..0] == [];
    }
  }

  lemma ArgsLonger(st: ArgScan, c: char, n: nat)
    requires st.result != [] && n > 0 && forall a <- st.result :: |a| < n
    ensures forall a <- ArgStep(st, c).result :: |a| < n + 1
  {
  }

  // ---------------------------------------------------------------- the recursion of GetType

  /** The C# keywords and their system names. */
  const SIGNED_NAMES: map<string, string> := map[
    "sbyte" := "System.SByte", "short" := "System.Int16", "int" := "System.Int32", "long" := "System.Int64"]

  const UNSIGNED_NAMES: map<string, string> := map[
    "byte" := "System.Byte", "ushort" := "System.UInt16", "uint" := "System.UInt32", "ulong" := "System.UInt64"]

  const REAL_NAMES: map<string, string> := map[
    "decimal" := "System.Decimal", "double" := "System.Double", "float" := "System.Single"]

  const OTHER_NAMES: map<string, string> := map[
    "bool" := "System.Boolean", "char" := "System.Char", "object" := "System.Object",
    "string" := "System.String", "IntPtr" := "System.IntPtr", "UIntPtr" := "System.UIntPtr"]

  const SYSTEM_NAMES := SIGNED_NAMES + UNSIGNED_NAMES + REAL_NAMES + OTHER_NAMES

  /** An alias table between names without generic arguments. */
  ghost predicate Flat(aliases: map<string, string>) {
    forall n <- aliases :: Without(n, {'<'}) && Without(aliases[n], {'<'})
  }

  lemma SystemNamesFlat()
    ensures Flat(SYSTEM_NAMES)
  {
    SignedNamesFlat();
    UnsignedNamesFlat();
    RealNamesFlat();
    OtherNamesFlat();
    FlatUnion(SIGNED_NAMES, UNSIGNED_NAMES);
    FlatUnion(SIGNED_NAMES + UNSIGNED_NAMES, REAL_NAMES);
    FlatUnion(SIGNED_NAMES + UNSIGNED_NAMES + REAL_NAMES, OTHER_NAMES);
  }

  lemma FlatUnion(a: map<string, string>, b: map<string, string>)
    requires Flat(a) && Flat(b)
    ensures Flat(a + b)
  {
  }

  lemma SignedNamesFlat()
    ensures Flat(SIGNED_NAMES)
  {
  }

  lemma UnsignedNamesFlat()
    ensures Flat(UNSIGNED_NAMES)
  {
  }

  lemma RealNamesFlat()
    ensures Flat(REAL_NAMES)
  {
  }

  lemma OtherNamesFlat()
    ensures Flat(OTHER_NAMES)
  {
  }

  /** The printer's table, from system names to keywords. */
  function RenameToCSharp(name: string): string {
    match name
    case "System.Boolean" => "bool"
    case "System.Byte" => "byte"
    case "System.SByte" => "sbyte"
    case "System.Char" => "char"
    case "System.Decimal" => "decimal"
    case "System.Double" => "double"
    case "System.Single" => "float"
    case "System.Int32" => "int"
    case "System.UInt32" => "uint"
    case "System.Int64" => "long"
    case "System.UInt64" => "ulong"
    case "System.Object" => "object"
    case "System.Int16" => "short"
    case "System.UInt16" => "ushort"
    case "System.String" => "string"
    case "System.IntPtr" => "IntPtr"
    case "System.UIntPtr" => "UIntPtr"
    case _ => name
  }

  /** The two tables are inverse: a keyword's system name is printed as the keyword, and what the
      printer changes is the system name of what it prints. */
  lemma TablesInverse(name: string)
    ensures name in SYSTEM_NAMES ==> RenameToCSharp(SYSTEM_NAMES[name]) == name
    ensures RenameToCSharp(name) != name ==>
      RenameToCSharp(name) in SYSTEM_NAMES && SYSTEM_NAMES[RenameToCSharp(name)] == name
  {
    if name in OTHER_NAMES { OtherNamesPrinted(name); }
    else if name in REAL_NAMES { RealNamesPrinted(name); }
    else if name in UNSIGNED_NAMES { UnsignedNamesPrinted(name); }
    else if name in SIGNED_NAMES { SignedNamesPrinted(name); }
    if RenameToCSharp(name) != name { PrintedNamed(name); }
  }

  lemma SignedNamesPrinted(name: string)
    requires name in SIGNED_NAMES
    ensures RenameToCSharp(SIGNED_NAMES[name]) == name
  {
  }

  lemma UnsignedNamesPrinted(name: string)
    requires name in UNSIGNED_NAMES
    ensures RenameToCSharp(UNSIGNED_NAMES[name]) == name
  {
  }

  lemma RealNamesPrinted(name: string)
    requires name in REAL_NAMES
    ensures RenameToCSharp(REAL_NAMES[name]) == name
  {
  }

  lemma OtherNamesPrinted(name: string)
    requires name in OTHER_NAMES
    ensures RenameToCSharp(OTHER_NAMES[name]) == name
  {
  }

  lemma PrintedNamed(name: string)
    requires RenameToCSharp(name) != name
    ensures RenameToCSharp(name) in SYSTEM_NAMES && SYSTEM_NAMES[RenameToCSharp(name)] == name
  {
    GroupsApart(RenameToCSharp(name));
    match name
    case "System.SByte" => SignedPrinted(name);
    case "System.Int16" => SignedPrinted(name);
    case "System.Int32" => SignedPrinted(name);
    case "System.Int64" => SignedPrinted(name);
    case "System.Byte" => UnsignedPrinted(name);
    case "System.UInt16" => UnsignedPrinted(name);
    case "System.UInt32" => UnsignedPrinted(name);
    case "System.UInt64" => UnsignedPrinted(name);
    case "System.Decimal" => RealPrinted(name);
    case "System.Double" => RealPrinted(name);
    case "System.Single" => RealPrinted(name);
    case "System.Boolean" => OtherPrinted(name);
    case "System.Char" => OtherPrinted(name);
    case "System.Object" => OtherPrinted(name);
    case "System.String" => OtherPrinted(name);
    case "System.IntPtr" => OtherPrinted(name);
    case "System.UIntPtr" => OtherPrinted(name);
    case _ =>
  }

  lemma SignedPrinted(name: string)
    requires name in {"System.SByte", "System.Int16", "System.Int32", "System.Int64"}
    ensures RenameToCSharp(name) in SIGNED_NAMES && SIGNED_NAMES[RenameToCSharp(name)] == name
  {
  }

  lemma UnsignedPrinted(name: string)
    requires name in {"System.Byte", "System.UInt16", "System.UInt32", "System.UInt64"}
    ensures RenameToCSharp(name) in UNSIGNED_NAMES && UNSIGNED_NAMES[RenameToCSharp(name)] == name
  {
  }

  lemma RealPrinted(name: string)
    requires name in {"System.Decimal", "System.Double", "System.Single"}
    ensures RenameToCSharp(name) in REAL_NAMES && REAL_NAMES[RenameToCSharp(name)] == name
  {
  }

  lemma OtherPrinted(name: string)
    requires name in {"System.Boolean", "System.Char", "System.Object", "System.String",
                      "System.IntPtr", "System.UIntPtr"}
    ensures RenameToCSharp(name) in OTHER_NAMES && OTHER_NAMES[RenameToCSharp(name)] == name
  {
  }

  /** A keyword is in one of the groups. */
  lemma GroupsApart(name: string)
    ensures name in SIGNED_NAMES ==> name !in UNSIGNED_NAMES && name !in REAL_NAMES && name !in OTHER_NAMES
    ensures name in UNSIGNED_NAMES ==> name !in REAL_NAMES && name !in OTHER_NAMES
    ensures name in REAL_NAMES ==> name !in OTHER_NAMES
  {
  }

  function Rename(aliases: map<string, string>, name: string): string {
    if name in aliases then aliases[name] else name
  }

  /** The parts that GetType hands to FindType. */
  function ClassParts(text: string, aliases: map<string, string>): (parts: seq<string>)
  {
    var parts := ScanType(text, TYPE_START).result;
    if |parts| == 1 then [Rename(aliases, parts[0])] else parts
  }

  /** Every argument of the part is shorter than `bound`. */
  ghost predicate ArgsBelow(part: string, bound: nat) {
    AllBelow(ArgsOf(part), bound)
  }

  ghost predicate AllBelow(texts: seq<string>, bound: nat) {
    forall j | 0 <= j < |texts| :: |texts[j]| < bound
  }

  lemma ClassArgsBelow(text: string, aliases: map<string, string>)
    requires Flat(aliases)
    ensures forall i | 0 <= i < |ClassParts(text, aliases)| :: ArgsBelow(ClassParts(text, aliases)[i], |text|)
  {
    var parts := ScanType(text, TYPE_START).result;
    PartsNoLonger(text);
    forall i | 0 <= i < |parts| ensures ArgsBelow(ClassParts(text, aliases)[i], |text|) {
      ArgsShorter(parts[i]);
      assert parts[i] in parts;
      var part := ClassParts(text, aliases)[i];
      if part != parts[i] {
        assert Find(part, '<') == |part|;
      }
    }
  }

  /** What GetType resolves: the metadata names of the parts, their arguments resolved the
      same way, and the ranks.  The recursion ends on every text. */
  function Resolve(text: string, aliases: map<string, string>): TypeName
    requires Flat(aliases)
    decreases |text|, 2, 0
  {
    ClassArgsBelow(text, aliases);
    TypeName(ResolveParts(ClassParts(text, aliases), |text|, aliases), ScanType(text, TYPE_START).ranks)
  }

  function ResolveParts(parts: seq<string>, ghost bound: nat, aliases: map<string, string>): seq<Part>
    requires Flat(aliases)
    requires forall i | 0 <= i < |parts| :: ArgsBelow(parts[i], bound)
    decreases bound, 1, |parts|
  {
    if parts == [] then []
    else
      var n := |parts| - 1;
      assert ArgsBelow(parts[n], bound);
      ResolveParts(parts[..n], bound, aliases)
      + [Part(NameOf(parts[n]), ResolveArgs(ArgsOf(parts[n]), bound, aliases))]
  }

  function ResolveArgs(args: seq<string>, ghost bound: nat, aliases: map<string, string>): seq<TypeName>
    requires Flat(aliases) && AllBelow(args, bound)
    decreases bound, 0, |args|
  {
    if args == [] then []
    else ResolveArgs(args[..|args| - 1], bound, aliases) + [Resolve(args[|args| - 1], aliases)]
  }

  /** The type as metadata names it: an arity mark on generic parts, and the system name for
      a keyword that stands alone. */
  function Canonical(t: TypeName, aliases: map<string, string>): TypeName
    decreases t, 1
  {
    TypeName(CanonicalParts(t.parts, |t.parts| == 1, aliases), t.ranks)
  }

  function CanonicalParts(ps: seq<Part>, alone: bool, aliases: map<string, string>): seq<Part>
    decreases ps, 0
  {
    if ps == [] then []
    else
      var p := ps[|ps| - 1];
      CanonicalParts(ps[..|ps| - 1], alone, aliases)
      + [Part(MetadataName(p, alone, aliases), CanonicalArgs(p.args, aliases))]
  }

  function MetadataName(p: Part, alone: bool, aliases: map<string, string>): string {
    if p.args != [] then p.name + "`" + Decimal(|p.args|)
    else if alone && p.name in aliases then aliases[p.name]
    else p.name
  }

  function CanonicalArgs(ts: seq<TypeName>, aliases: map<string, string>): seq<TypeName>
    decreases ts, 0
  {
    if ts == [] then [] else CanonicalArgs(ts[..|ts| - 1], aliases) + [Canonical(ts[|ts| - 1], aliases)]
  }

  /** Reading a printed type back gives the type, with the names the metadata uses. */
  lemma {:induction false} ResolveOfShow(t: TypeName, aliases: map<string, string>)
    requires WellFormed(t) && Flat(aliases)
    ensures Resolve(Show(t), aliases) == Canonical(t, aliases)
    decreases t, 1
  {
    ResolveReading(t, Show(t), aliases);
  }

  /** Reading a printed type, part by part: the ranks come back; a part with arguments gets the mark
      of their number, and each argument is resolved as it would be by itself; a part without is
      renamed exactly when it stands alone and the table has it. */
  lemma ResolvedParts(t: TypeName, aliases: map<string, string>)
    requires WellFormed(t) && Flat(aliases)
    ensures var r := Resolve(Show(t), aliases);
      && r.ranks == t.ranks && |r.parts| == |t.parts|
      && forall i | 0 <= i < |t.parts| :: PartResolved(t.parts[i], |t.parts| == 1, aliases, r.parts[i])
  {
    ResolveOfShow(t, aliases);
    CanonicalAt(t.parts, |t.parts| == 1, aliases);
    forall i | 0 <= i < |t.parts|
      ensures PartResolved(t.parts[i], |t.parts| == 1, aliases, Canonical(t, aliases).parts[i])
    {
      assert WellFormedPart(t.parts[i]);
      CanonicalArgsAt(t.parts[i].args, aliases);
      forall j | 0 <= j < |t.parts[i].args|
        ensures Resolve(Show(t.parts[i].args[j]), aliases) == CanonicalArgs(t.parts[i].args, aliases)[j]
      {
        ResolveOfShow(t.parts[i].args[j], aliases);
      }
    }
  }

  ghost predicate PartResolved(p: Part, alone: bool, aliases: map<string, string>, r: Part)
    requires Flat(aliases)
  {
    && |r.args| == |p.args|
    && (forall j | 0 <= j < |p.args| :: r.args[j] == Resolve(Show(p.args[j]), aliases))
    && (p.args != [] ==> r.name == p.name + "`" + Decimal(|p.args|))
    && (p.args == [] && alone && p.name in aliases ==> r.name == aliases[p.name])
    && (p.args == [] && !(alone && p.name in aliases) ==> r.name == p.name)
  }

  lemma {:induction false} CanonicalAt(ps: seq<Part>, alone: bool, aliases: map<string, string>)
    ensures |CanonicalParts(ps, alone, aliases)| == |ps|
    ensures forall i | 0 <= i < |ps| :: CanonicalParts(ps, alone, aliases)[i]
              == Part(MetadataName(ps[i], alone, aliases), CanonicalArgs(ps[i].args, aliases))
  {
    if ps != [] { CanonicalAt(ps[..|ps| - 1], alone, aliases); }
  }

  lemma {:induction false} CanonicalArgsAt(ts: seq<TypeName>, aliases: map<string, string>)
    ensures |CanonicalArgs(ts, aliases)| == |ts|
    ensures forall i | 0 <= i < |ts| :: CanonicalArgs(ts, aliases)[i] == Canonical(ts[i], aliases)
  {
    if ts != [] { CanonicalArgsAt(ts[..|ts| - 1], aliases); }
  }

  lemma NoRanks(ranks: seq<Rank>)
    requires ranks == []
    ensures ShowRanks(ranks) == ""
  {
  }

  /** A plain name by itself. */
  lemma NameResolved(name: string, aliases: map<string, string>)
    requires Plain(name) && Flat(aliases)
    ensures Resolve(name, aliases) == TypeName([Part(if name in aliases then aliases[name] else name, [])], [])
  {
    var t := TypeName([Part(name, [])], []);
    assert ShowParts(t.parts) == name;
    NoRanks(t.ranks);
    assert Show(t) == name;
    ResolvedParts(t, aliases);
    assert Resolve(name, aliases).parts == [Resolve(name, aliases).parts[0]];
  }

  /** Any text that ParseType reads as it reads the printed type. */
  lemma {:induction false} ResolveReading(t: TypeName, text: string, aliases: map<string, string>)
    requires WellFormed(t) && Flat(aliases)
    requires ScanType(text, TYPE_START) == ScanType(Show(t), TYPE_START)
    ensures Resolve(text, aliases) == Canonical(t, aliases)
    decreases t, 0
  {
    ParseTypeOfShow(t);
    ClassArgsBelow(text, aliases);
    var alone := |t.parts| == 1;
    var parts := ClassParts(text, aliases);
    assert forall i | 0 <= i < |t.parts| :: parts[i] == ClassText(t.parts[i], alone, aliases);
    ResolvePartsOfShow(t.parts, alone, parts, |text|, aliases);
  }

  function ClassText(p: Part, alone: bool, aliases: map<string, string>): string {
    if alone then Rename(aliases, ShowPart(p)) else ShowPart(p)
  }

  lemma {:induction false} ResolvePartsOfShow(ps: seq<Part>, alone: bool, parts: seq<string>, bound: nat,
                                                aliases: map<string, string>)
    requires Flat(aliases)
    requires forall p <- ps :: WellFormedPart(p)
    requires |parts| == |ps| && forall i | 0 <= i < |ps| :: parts[i] == ClassText(ps[i], alone, aliases)
    requires forall i | 0 <= i < |parts| :: ArgsBelow(parts[i], bound)
    ensures ResolveParts(parts, bound, aliases) == CanonicalParts(ps, alone, aliases)
    decreases ps, 0
  {
    if ps != [] {
      var n := |ps| - 1;
      ResolvePartsOfShow(ps[..n], alone, parts[..n], bound, aliases);
      ResolvePart(ps[n], alone, aliases);
      assert ArgsBelow(parts[n], bound) && ArgsOf(parts[n]) == Texts(ps[n].args);
      ResolveArgsOfShow(ps[n].args, bound, aliases);
      OneMorePart(ps, alone, parts, bound, aliases);
    }
  }

  lemma OneMorePart(ps: seq<Part>, alone: bool, parts: seq<string>, bound: nat, aliases: map<string, string>)
    requires Flat(aliases) && |parts| == |ps| && ps != [] && forall i | 0 <= i < |parts| :: ArgsBelow(parts[i], bound)
    requires var n := |ps| - 1;
      && ResolveParts(parts[..n], bound, aliases) == CanonicalParts(ps[..n], alone, aliases)
      && NameOf(parts[n]) == MetadataName(ps[n], alone, aliases)
      && ArgsBelow(parts[n], bound)
      && ResolveArgs(ArgsOf(parts[n]), bound, aliases) == CanonicalArgs(ps[n].args, aliases)
    ensures ResolveParts(parts, bound, aliases) == CanonicalParts(ps, alone, aliases)
  {
  }

  lemma {:induction false} ResolveArgsOfShow(ts: seq<TypeName>, bound: nat, aliases: map<string, string>)
    requires Flat(aliases)
    requires forall t <- ts :: WellFormed(t)
    requires AllBelow(Texts(ts), bound)
    ensures ResolveArgs(Texts(ts), bound, aliases) == CanonicalArgs(ts, aliases)
    decreases ts, 0
  {
    if ts != [] {
      var n := |ts| - 1;
      assert Texts(ts)[..n] == Texts(ts[..n]);
      ResolveArgsOfShow(ts[..n], bound, aliases);
      ResolveOfShow(ts[n], aliases);
    }
  }

  lemma ResolvePart(p: Part, alone: bool, aliases: map<string, string>)
    requires WellFormedPart(p) && Flat(aliases)
    ensures NameOf(ClassText(p, alone, aliases)) == MetadataName(p, alone, aliases)
    ensures ArgsOf(ClassText(p, alone, aliases)) == Texts(p.args)
  {
    var text := ClassText(p, alone, aliases);
    ParseGenericParamsOfShow(p);
    if p.args != [] {
      assert ShowPart(p)[|p.name|] == '<';
      assert !Without(ShowPart(p), {'<'});
    } else if text != ShowPart(p) {
      assert Find(text, '<') == |text|;
      assert Texts(p.args) == [];
    }
  }

  /** Two well-formed types that print alike resolve alike, however either is spaced. */
  lemma ResolveSpaced(t: TypeName, text: string, aliases: map<string, string>)
    requires WellFormed(t) && Flat(aliases) && Squeeze(text) == Show(t)
    ensures Resolve(text, aliases) == Canonical(t, aliases)
  {
    SpacesIgnored(text, TYPE_START);
    ResolveReading(t, text, aliases);
  }

  /** GatherParameters: the arguments of the first `indexEnd` parts, in order. */
  function Gathered(parts: seq<string>): seq<string> {
    if parts == [] then [] else Gathered(parts[..|parts| - 1]) + ArgsOf(parts[|parts| - 1])
  }

  method GatherParameters(parts: seq<string>, indexEnd: nat) returns (result: seq<string>)
    requires indexEnd <= |parts|
    ensures result == Gathered(parts[..indexEnd])
  {
    result := [];
    for i := 0 to indexEnd
      invariant result == Gathered(parts[..i])
    {
      assert parts[..i + 1][..i] == parts[..i];
      var params, _ := ParseGenericParams(parts[i]);
      result := result + params;
    }
  }

  function AllArgs(ps: seq<Part>): seq<TypeName> {
    if ps == [] then [] else AllArgs(ps[..|ps| - 1]) + ps[|ps| - 1].args
  }

  lemma TextsConcat(a: seq<TypeName>, b: seq<TypeName>)
    ensures Texts(a + b) == Texts(a) + Texts(b)
  {
  }

  lemma {:induction false} GatheredOfShow(ps: seq<Part>)
    requires forall p <- ps :: WellFormedPart(p)
    ensures Gathered(PartTexts(ps)) == Texts(AllArgs(ps))
  {
    if ps == [] {
      assert PartTexts(ps) == [];
    } else {
      var n := |ps| - 1;
      GatheredOfShow(ps[..n]);
      ParseGenericParamsOfShow(ps[n]);
      assert PartTexts(ps)[..n] == PartTexts(ps[..n]);
      TextsConcat(AllArgs(ps[..n]), ps[n].args);
    }
  }
}
