/**
 Access paths in the expression evaluator: ParseExpression splits a path into members and
 elements, and ParseIndices reads the indices of an element.
 */
module AccessPaths {
  import opened Text
  import opened TypeNames

  /** One step of an access path: a member, or an element with its indices. */
  datatype Step = Member(part: Part) | Element(indices: seq<nat>)

  predicate WellFormedStep(step: Step) {
    match step
    case Member(part) => WellFormedPart(part)
    case Element(indices) => indices != []
  }

  function ShowIndices(indices: seq<nat>): string {
    if indices == [] then ""
    else if |indices| == 1 then Decimal(indices[0])
    else ShowIndices(indices[..|indices| - 1]) + ("," + Decimal(indices[|indices| - 1]))
  }

  /** The text of a step without the character that introduces it. */
  function StepText(step: Step): string {
    match step
    case Member(part) => ShowPart(part)
    case Element(indices) => ShowIndices(indices) + "]"
  }

  /** A step with the character that introduces it. */
  function ShowStep(step: Step): string {
    (if step.Member? then "." else "[") + StepText(step)
  }

  function ShowPath(first: Part, steps: seq<Step>): string {
    if steps == [] then ShowPart(first)
    else ShowPath(first, steps[..|steps| - 1]) + ShowStep(steps[|steps| - 1])
  }

  datatype PathScan = PathScan(result: seq<string>, depth: int)

  const PATH_START := PathScan([""], 0)

  function PathStep(st: PathScan, c: char): (r: PathScan)
    requires st.result != []
    ensures r.result != []
  {
    var kept := st.(result := AppendLast(st.result, [c]));
    match c
    case '.' => if st.depth == 0 then st.(result := st.result + [""]) else kept
    case '[' => if st.depth == 0 then st.(result := st.result + [""]) else kept
    case '<' => kept.(depth := st.depth + 1)
    case '>' => kept.(depth := st.depth - 1)
    case ' ' => st
    case _ => kept
  }

  function ScanPath(s: string, st: PathScan): (r: PathScan)
    requires st.result != []
    ensures r.result != []
  {
    if s == [] then st else PathStep(ScanPath(s[..|s| - 1], st), s[|s| - 1])
  }

  method ParseExpression(expression: string) returns (result: seq<string>)
    ensures result == ScanPath(expression, PATH_START).result
  {
    result := [""];
    var paramDepth := 0;
    for i := 0 to |expression|
      invariant PathScan(result, paramDepth) == ScanPath(expression[..i], PATH_START)
    {
      var c := expression[i];
      assert expression[..i + 1][..i] == expression[..i];
      if (c == '.' || c == '[') && paramDepth == 0 {
        result := result + [""];
        continue;
      } else if c == '<' {
        paramDepth := paramDepth + 1;
      } else if c == '>' {
        paramDepth := paramDepth - 1;
      } else if c == ' ' {
        continue;
      }
      result := AppendLast(result, [c]);
    }
    assert expression[..|expression|] == expression;
  }

  lemma {:induction false} ScanPathConcat(a: string, b: string, st: PathScan)
    requires st.result != []
    ensures ScanPath(a + b, st) == ScanPath(b, ScanPath(a, st))
  {
    if b == [] {
      assert a + b == a;
    } else {
      ScanPathConcat(a, b[..|b| - 1], st);
      LastOf(a, b);
    }
  }

  /** Text that opens no part: nothing that separates, unless inside angle brackets. */
  lemma {:induction false} ScanPathKept(s: string, st: PathScan)
    requires st.result != [] && Without(s, {' '})
    requires Without(s, {'.', '[', '<', '>'}) || forall k | 0 <= k <= |s| :: st.depth + Depth(s[..k]) >= 1
    ensures ScanPath(s, st) == PathScan(AppendLast(st.result, s), st.depth + Depth(s))
  {
    if s == [] {
      assert st.result[|st.result| - 1] + s == st.result[|st.result| - 1];
      assert AppendLast(st.result, s) == st.result;
    } else {
      var n := |s| - 1;
      var init, last := s[..n], [s[n]];
      if !Without(s, {'.', '[', '<', '>'}) {
        forall k | 0 <= k <= n ensures st.depth + Depth(init[..k]) >= 1 {
          assert init[..k] == s[..k];
        }
        assert st.depth + Depth(s[..n]) >= 1;
      }
      ScanPathKept(init, st);
      AppendTwice(st.result, init, last);
      assert init + last == s;
      DepthConcat(init, last);
    }
  }

  ghost predicate PathKept(s: string, st: PathScan)
    requires st.result != []
  {
    ScanPath(s, st) == st.(result := AppendLast(st.result, s))
  }

  lemma ScanPathOne(c: char, st: PathScan)
    requires st.result != []
    ensures ScanPath([c], st) == PathStep(st, c)
  {
    assert [c][..0] == [];
  }

  lemma ScanPathOpened(text: string, st: PathScan)
    requires Closed(text) && st.result != [] && st.depth == 0
    ensures ScanPath("<" + text, st) == PathScan(AppendLast(st.result, "<" + text), 1)
  {
    ScanPathConcat("<", text, st);
    ScanPathOne('<', st);
    ScanPathKept(text, PathScan(AppendLast(st.result, "<"), 1));
    AppendTwice(st.result, "<", text);
  }

  lemma ScanPathAngle(text: string, st: PathScan)
    requires Closed(text) && st.result != [] && st.depth == 0
    ensures PathKept("<" + text + ">", st)
  {
    ScanPathConcat("<" + text, ">", st);
    ScanPathOpened(text, st);
    ScanPathOne('>', PathScan(AppendLast(st.result, "<" + text), 1));
    AppendTwice(st.result, "<" + text, ">");
  }

  lemma PathKeptConcat(a: string, b: string, st: PathScan)
    requires st.result != []
    requires PathKept(a, st) && PathKept(b, st.(result := AppendLast(st.result, a)))
    ensures PathKept(a + b, st)
  {
    ScanPathConcat(a, b, st);
    AppendTwice(st.result, a, b);
  }

  lemma ScanPathName(name: string, st: PathScan)
    requires Plain(name) && st.result != [] && st.depth == 0
    ensures PathKept(name, st)
  {
    FlatDepth(name);
    ScanPathKept(name, st);
  }

  lemma ScanPathPart(p: Part, st: PathScan)
    requires WellFormedPart(p) && st.result != [] && st.depth == 0
    ensures PathKept(ShowPart(p), st)
  {
    ScanPathName(p.name, st);
    if p.args != [] {
      var inner := ShowArgs(p.args);
      assert Closed(inner) by { ShowArgsClosed(p.args); }
      ScanPathAngle(inner, st.(result := AppendLast(st.result, p.name)));
      PathKeptConcat(p.name, "<" + inner + ">", st);
      assert p.name + ("<" + inner + ">") == ShowPart(p);
    }
  }

  lemma {:induction false} IndicesFlat(indices: seq<nat>)
    ensures Without(ShowIndices(indices), {'.', '[', '<', '>', ' '})
  {
    if |indices| > 1 { IndicesFlat(indices[..|indices| - 1]); }
  }

  lemma StepTextKept(step: Step, st: PathScan)
    requires WellFormedStep(step) && st.result != [] && st.depth == 0
    ensures PathKept(StepText(step), st)
  {
    match step {
      case Member(part) => ScanPathPart(part, st);
      case Element(indices) =>
        IndicesFlat(indices);
        FlatDepth(StepText(step));
        ScanPathKept(StepText(step), st);
    }
  }

  lemma ScanPathStep(done: seq<string>, step: Step)
    requires WellFormedStep(step) && done != []
    ensures ScanPath(ShowStep(step), PathScan(done, 0)) == PathScan(done + [StepText(step)], 0)
  {
    var text := StepText(step);
    var intro := if step.Member? then '.' else '[';
    var next := PathScan(done + [""], 0);
    assert ShowStep(step) == [intro] + text;
    ScanPathConcat([intro], text, PathScan(done, 0));
    StepTextKept(step, next);
    AppendNew(done, text);
  }

  lemma AppendNew(done: seq<string>, text: string)
    ensures AppendLast(done + [""], text) == done + [text]
  {
    assert "" + text == text;
  }

  /** What ParseExpression should find: the text of the first part, then of every step. */
  function PathTexts(first: Part, steps: seq<Step>): (r: seq<string>)
    ensures |r| == 1 + |steps|
  {
    if steps == [] then [ShowPart(first)]
    else PathTexts(first, steps[..|steps| - 1]) + [StepText(steps[|steps| - 1])]
  }

  lemma ScanPathFirst(first: Part)
    requires WellFormedPart(first)
    ensures ScanPath(ShowPart(first), PATH_START) == PathScan([ShowPart(first)], 0)
  {
    ScanPathPart(first, PATH_START);
    assert "" + ShowPart(first) == ShowPart(first);
    assert AppendLast([""], ShowPart(first)) == [ShowPart(first)];
  }

  /** ParseExpression splits a printed access path into its steps. */
  lemma {:induction false} ParseExpressionOfShow(first: Part, steps: seq<Step>)
    requires WellFormedPart(first) && forall s <- steps :: WellFormedStep(s)
    ensures ScanPath(ShowPath(first, steps), PATH_START) == PathScan(PathTexts(first, steps), 0)
  {
    if steps == [] {
      ScanPathFirst(first);
    } else {
      var init, last := steps[..|steps| - 1], steps[|steps| - 1];
      ParseExpressionOfShow(first, init);
      ScanPathStep(PathTexts(first, init), last);
      ScanPathConcat(ShowPath(first, init), ShowStep(last), PATH_START);
    }
  }

  // ---------------------------------------------------------------- indices

  const UINT32 := 0x1_0000_0000

  /** The variables of ParseIndices' loop; `failed` once it has returned an error. */
  datatype IndexScan = IndexScan(indices: seq<nat>, current: nat, failed: bool)

  const INDEX_START := IndexScan([], 0, false)

  function IndexStep(st: IndexScan, c: char): IndexScan {
    if st.failed || c == ' ' then st
    else if IsDigit(c) then st.(current := (st.current * 10 % UINT32 + DigitValue(c)) % UINT32)
    else if c == ',' || c == ']' then IndexScan(st.indices + [st.current], 0, false)
    else st.(failed := true)
  }

  function ScanIndices(s: string, st: IndexScan): IndexScan {
    if s == [] then st else IndexStep(ScanIndices(s[..|s| - 1], st), s[|s| - 1])
  }

  method ParseIndices(s: string) returns (ok: bool, indices: seq<nat>)
    ensures ok == !ScanIndices(s, INDEX_START).failed
    ensures ok ==> indices == ScanIndices(s, INDEX_START).indices
  {
    indices := [];
    var currentVal: nat := 0;
    for i := 0 to |s|
      invariant IndexScan(indices, currentVal, false) == ScanIndices(s[..i], INDEX_START)
    {
      var c := s[i];
      assert s[..i + 1][..i] == s[..i];
      if !IsDigit(c) {
        if c == ' ' {
          continue;
        } else if c == ',' || c == ']' {
          indices := indices + [currentVal];
          currentVal := 0;
          continue;
        }
        FailureStays(s, i + 1);
        return false, indices;
      }
      currentVal := currentVal * 10 % UINT32;
      currentVal := (currentVal + DigitValue(c)) % UINT32;
    }
    assert s[..|s|] == s;
    ok := true;
  }

  lemma {:induction false} FailureStays(s: string, i: nat)
    requires i <= |s| && ScanIndices(s[..i], INDEX_START).failed
    ensures ScanIndices(s, INDEX_START).failed
  {
    if i == |s| {
      assert s[..i] == s;
    } else {
      assert s[..|s| - 1][..i] == s[..i];
      FailureStays(s[..|s| - 1], i);
    }
  }

  /** Reading indices fails exactly at a character that is no digit, space, comma or bracket. */
  lemma {:induction false} IndicesFail(s: string)
    ensures ScanIndices(s, INDEX_START).failed <==>
      exists i :: 0 <= i < |s| && !('0' <= s[i] <= '9') && s[i] != ' ' && s[i] != ',' && s[i] != ']'
  {
    if s != [] {
      var n := |s| - 1;
      IndicesFail(s[..n]);
      assert forall i | 0 <= i < n :: s[..n][i] == s[i];
    }
  }

  /** Spaces make no difference to indices. */
  lemma {:induction false} IndexSpaces(s: string)
    ensures ScanIndices(s, INDEX_START) == ScanIndices(Squeeze(s), INDEX_START)
  {
    if s != [] {
      var n := |s| - 1;
      IndexSpaces(s[..n]);
      if s[n] == ' ' {
        assert Squeeze(s) == Squeeze(s[..n]);
      } else {
        ScanIndicesConcat(Squeeze(s[..n]), [s[n]], INDEX_START);
        assert [s[n]][..0] == [];
      }
    }
  }

  lemma {:induction false} ScanIndicesConcat(a: string, b: string, st: IndexScan)
    ensures ScanIndices(a + b, st) == ScanIndices(b, ScanIndices(a, st))
  {
    if b == [] {
      assert a + b == a;
    } else {
      ScanIndicesConcat(a, b[..|b| - 1], st);
      LastOf(a, b);
    }
  }

  lemma WrapStep(n: nat)
    ensures ((n / 10 % UINT32) * 10 % UINT32 + n % 10) % UINT32 == n % UINT32
  {
    var q, r := n / 10 / UINT32, n / 10 % UINT32;
    assert n == q * 10 * UINT32 + (r * 10 + n % 10);
    var t := r * 10 / UINT32;
    assert r * 10 == t * UINT32 + r * 10 % UINT32;
    assert n == (q * 10 + t) * UINT32 + (r * 10 % UINT32 + n % 10);
  }

  lemma DigitStep(st: IndexScan, n: nat)
    requires !st.failed && st.current == n / 10 % UINT32
    ensures IndexStep(st, DigitChar(n % 10)) == st.(current := n % UINT32)
  {
    WrapStep(n);
  }

  lemma {:induction false} ScanNumeral(n: nat, indices: seq<nat>)
    ensures ScanIndices(Decimal(n), IndexScan(indices, 0, false)) == IndexScan(indices, n % UINT32, false)
  {
    var st := IndexScan(indices, 0, false);
    if n < 10 {
      DigitStep(st, n);
    } else {
      var before := IndexScan(indices, n / 10 % UINT32, false);
      ScanNumeral(n / 10, indices);
      ScanIndicesConcat(Decimal(n / 10), [DigitChar(n % 10)], st);
      DigitStep(before, n);
    }
  }

  function Wrapped(indices: seq<nat>): seq<nat> {
    seq(|indices|, i requires 0 <= i < |indices| => indices[i] % UINT32)
  }

  lemma {:induction false} ScanIndexList(indices: seq<nat>)
    requires indices != []
    ensures ScanIndices(ShowIndices(indices) + "]", INDEX_START) == IndexScan(Wrapped(indices), 0, false)
  {
    ScanOpenList(indices);
    var n := |indices| - 1;
    ScanIndicesConcat(ShowIndices(indices), "]", INDEX_START);
    assert Wrapped(indices) == Wrapped(indices[..n]) + [indices[n] % UINT32];
  }

  lemma {:induction false} ScanOpenList(indices: seq<nat>)
    requires indices != []
    ensures var n := |indices| - 1;
      ScanIndices(ShowIndices(indices), INDEX_START) == IndexScan(Wrapped(indices[..n]), indices[n] % UINT32, false)
  {
    var n := |indices| - 1;
    if n == 0 {
      ScanNumeral(indices[0], []);
      assert Wrapped(indices[..0]) == [];
    } else {
      ScanOpenList(indices[..n]);
      var front := Wrapped(indices[..n]);
      assert front == Wrapped(indices[..n][..n - 1]) + [indices[n - 1] % UINT32];
      ScanIndicesConcat(ShowIndices(indices[..n]), "," + Decimal(indices[n]), INDEX_START);
      var before := ScanIndices(ShowIndices(indices[..n]), INDEX_START);
      ScanIndicesConcat(",", Decimal(indices[n]), before);
      ScanNumeral(indices[n], front);
    }
  }

  /** Reading the index part of an element access gives the indices back, exactly when they
      fit in 32 bits. */
  lemma IndicesExact(indices: seq<nat>)
    requires indices != []
    ensures var st := ScanIndices(StepText(Element(indices)), INDEX_START);
      && !st.failed
      && (st.indices == indices <==> forall i | 0 <= i < |indices| :: indices[i] < 0x1_0000_0000)
  {
    ScanIndexList(indices);
    WrappedExact(indices);
  }

  lemma WrappedExact(indices: seq<nat>)
    ensures Wrapped(indices) == indices <==> forall i | 0 <= i < |indices| :: indices[i] < UINT32
  {
    if Wrapped(indices) == indices {
      forall i | 0 <= i < |indices| ensures indices[i] < UINT32 { assert indices[i] == Wrapped(indices)[i]; }
    }
  }

  /** The least index that does not come back. */
  lemma IndexWraps()
    ensures ScanIndices(StepText(Element([0x1_0000_0000])), INDEX_START).indices == [0]
  {
    ScanIndexList([UINT32]);
  }
}
