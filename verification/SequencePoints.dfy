/**
 Sequence points: from a source line to an IL offset (ResolveSequencePoint), from an IL
 offset to a source line (GetSequencePointByILOffset), and the range that one step covers
 (GetStepRangesFromIP and GetStepRangeFromCurrentIP).
 */
module SequencePoints {

  import opened Options

  /** The line number of a hidden point (Portable PDB v1.0, "Sequence Points Blob"). */
  const HIDDEN := 0xfeefee

  datatype Point = Point(offset: int, startLine: int, startColumn: int, endLine: int, endColumn: int, document: string)

  datatype MethodInfo = MethodInfo(token: int, points: seq<Point>)

  predicate Hidden(p: Point) {
    p.startLine == HIDDEN
  }

  /** What the format promises: within a method offsets strictly increase. */
  ghost predicate Increasing(points: seq<Point>) {
    forall i, j | 0 <= i < j < |points| :: points[i].offset < points[j].offset
  }

  ghost predicate WellFormed(methods: seq<MethodInfo>) {
    && (forall i | 0 <= i < |methods| :: Increasing(methods[i].points))
    && (forall i, j | 0 <= i < j < |methods| :: methods[i].token != methods[j].token)
  }

  // ---------------------------------------------------------------- file names

  /** The index of the last slash of either kind, or -1. */
  function LastSlash(path: string): (k: int)
    ensures -1 <= k < |path| && (k >= 0 ==> path[k] == '/' || path[k] == '\\')
    ensures forall m | k < m < |path| :: path[m] != '/' && path[m] != '\\'
  {
    if path == [] then -1
    else
      var n := |path| - 1;
      if path[n] == '/' || path[n] == '\\' then n else LastSlash(path[..n])
  }

  function FileName(path: string): string {
    path[LastSlash(path) + 1..]
  }

  function UpperChar(c: char): char {
    if 'a' <= c <= 'z' then c - 'a' + 'A' else c
  }

  function Upper(s: string): (r: string)
    ensures |r| == |s|
  {
    seq(|s|, i requires 0 <= i < |s| => UpperChar(s[i]))
  }

  predicate SameIgnoringCase(a: string, b: string) {
    Upper(a) == Upper(b)
  }

  /** A bare file name matches any document of that name, a path only the document itself. */
  predicate FileMatches(file: string, source: string) {
    if FileName(file) == file then SameIgnoringCase(FileName(source), file) else SameIgnoringCase(source, file)
  }

  predicate IsSlash(c: char) {
    c == '/' || c == '\\'
  }

  /** The same letter, of either case. */
  predicate SameLetter(a: char, b: char) {
    a == b || ('a' <= a <= 'z' && b as int == a as int - 32) || ('a' <= b <= 'z' && a as int == b as int - 32)
  }

  predicate SameLetters(a: string, b: string) {
    |a| == |b| && forall i | 0 <= i < |a| :: SameLetter(a[i], b[i])
  }

  lemma IgnoringCaseExact(a: string, b: string)
    ensures SameIgnoringCase(a, b) <==> SameLetters(a, b)
  {
    if SameIgnoringCase(a, b) {
      forall i | 0 <= i < |a| ensures SameLetter(a[i], b[i]) { assert Upper(a)[i] == Upper(b)[i]; }
    }
    if SameLetters(a, b) { assert Upper(a) == Upper(b); }
  }

  /** The file name of a path is what is behind its last slash, of either kind. */
  lemma FileNameExact(dir: string, name: string)
    requires (dir == "" || IsSlash(dir[|dir| - 1])) && forall i | 0 <= i < |name| :: !IsSlash(name[i])
    ensures FileName(dir + name) == name
  {
    var path := dir + name;
    assert dir != "" ==> IsSlash(path[|dir| - 1]);
    assert forall i | |dir| <= i < |path| :: path[i] == name[i - |dir|];
    assert LastSlash(path) == |dir| - 1;
  }

  /** A requested name without slashes matches every document with this file name, in letters of
      either case; one with slashes matches only the document itself. */
  lemma FileMatchesExact(file: string, dir: string, name: string)
    requires (dir == "" || IsSlash(dir[|dir| - 1])) && forall i | 0 <= i < |name| :: !IsSlash(name[i])
    ensures FileMatches(file, dir + name) <==>
      SameLetters(file, if exists i :: 0 <= i < |file| && IsSlash(file[i]) then dir + name else name)
  {
    var path := dir + name;
    assert FileName(path) == name by { FileNameExact(dir, name); }
    assert FileName(file) == file <==> !exists i :: 0 <= i < |file| && IsSlash(file[i]) by { BareExact(file); }
    MatchesCase(file, path, name);
  }

  lemma BareExact(file: string)
    ensures FileName(file) == file <==> !exists i :: 0 <= i < |file| && IsSlash(file[i])
  {
    if i :| 0 <= i < |file| && IsSlash(file[i]) {
      assert LastSlash(file) >= i;
    } else {
      assert LastSlash(file) == -1;
    }
  }

  lemma MatchesCase(file: string, path: string, name: string)
    requires FileName(path) == name
    ensures FileMatches(file, path) <==> SameLetters(file, if FileName(file) == file then name else path)
  {
    IgnoringCaseExact(name, file);
    IgnoringCaseExact(path, file);
    SameLettersBack(name, file);
    SameLettersBack(path, file);
  }

  lemma SameLettersBack(a: string, b: string)
    ensures SameLetters(a, b) <==> SameLetters(b, a)
  {
  }

  /** The closure that ResolveSequencePoint builds for the requested file. */
  function Matcher(file: string): string -> bool {
    source => FileMatches(file, source)
  }

  // ---------------------------------------------------------------- line to offset

  predicate Candidate(p: Point, matches: string -> bool, line: int) {
    p.startLine == line && matches(p.document)
  }

  /** The first point of the method at the line, or its number of points. */
  function FirstCandidate(points: seq<Point>, matches: string -> bool, line: int): (j: nat)
    ensures j <= |points| && (j < |points| ==> Candidate(points[j], matches, line))
    ensures forall k | 0 <= k < j :: !Candidate(points[k], matches, line)
  {
    if points == [] then 0
    else
      var j := FirstCandidate(points[..|points| - 1], matches, line);
      if j < |points| - 1 || Candidate(points[|points| - 1], matches, line) then j else |points|
  }

  function FirstMethod(methods: seq<MethodInfo>, matches: string -> bool, line: int): (i: nat)
    ensures i <= |methods|
    ensures i < |methods| ==> FirstCandidate(methods[i].points, matches, line) < |methods[i].points|
    ensures forall k | 0 <= k < i :: FirstCandidate(methods[k].points, matches, line) == |methods[k].points|
  {
    if methods == [] then 0
    else
      var i, n := FirstMethod(methods[..|methods| - 1], matches, line), |methods| - 1;
      if i < n || FirstCandidate(methods[n].points, matches, line) < |methods[n].points| then i else |methods|
  }

  /** The method and point of the first match, methods in order and points in order. */
  function Resolved(methods: seq<MethodInfo>, matches: string -> bool, line: int): Option<(nat, nat)> {
    var i := FirstMethod(methods, matches, line);
    if i == |methods| then None else Some((i, FirstCandidate(methods[i].points, matches, line)))
  }

  /** Whether any point of any method is at the line. */
  ghost predicate Known(methods: seq<MethodInfo>, matches: string -> bool, line: int) {
    exists i, j | 0 <= i < |methods| && 0 <= j < |methods[i].points| :: Candidate(methods[i].points[j], matches, line)
  }

  lemma ResolvedIffKnown(methods: seq<MethodInfo>, matches: string -> bool, line: int)
    ensures Resolved(methods, matches, line).Some? <==> Known(methods, matches, line)
  {
    var n := FirstMethod(methods, matches, line);
    if i, j :| 0 <= i < |methods| && 0 <= j < |methods[i].points| && Candidate(methods[i].points[j], matches, line) {
      assert FirstCandidate(methods[i].points, matches, line) <= j;
      assert n <= i;
    }
    if n < |methods| {
      assert Candidate(methods[n].points[FirstCandidate(methods[n].points, matches, line)], matches, line);
    }
  }

  method ResolveSequencePoint(methods: seq<MethodInfo>, matches: string -> bool, line: int)
    returns (found: bool, token: int, ilOffset: int)
    ensures found == Resolved(methods, matches, line).Some?
    ensures found ==> var (i, j) := Resolved(methods, matches, line).value;
      token == methods[i].token && ilOffset == methods[i].points[j].offset
    ensures !found ==> token == 0 && ilOffset == 0
  {
    token, ilOffset := 0, 0;
    for i := 0 to |methods|
      invariant forall k | 0 <= k < i :: FirstCandidate(methods[k].points, matches, line) == |methods[k].points|
    {
      var points := methods[i].points;
      for j := 0 to |points|
        invariant forall k | 0 <= k < j :: !Candidate(points[k], matches, line)
      {
        if Candidate(points[j], matches, line) {
          return true, methods[i].token, points[j].offset;
        }
      }
    }
    found := false;
  }

  // ---------------------------------------------------------------- offset to line

  /** The last visible point at or before the offset, or -1. */
  function LastVisible(points: seq<Point>, il: int): (k: int)
    ensures -1 <= k < |points|
    ensures k >= 0 ==> !Hidden(points[k]) && points[k].offset <= il
    ensures forall m | k < m < |points| :: Hidden(points[m]) || points[m].offset > il
  {
    if points == [] then -1
    else
      var n := |points| - 1;
      if !Hidden(points[n]) && points[n].offset <= il then n else LastVisible(points[..n], il)
  }

  /** The first visible point, or the number of points. */
  function FirstVisible(points: seq<Point>): (k: nat)
    ensures k <= |points| && (k < |points| ==> !Hidden(points[k]))
    ensures forall m | 0 <= m < k :: Hidden(points[m])
  {
    if points == [] then 0
    else
      var k := FirstVisible(points[..|points| - 1]);
      if k < |points| - 1 || !Hidden(points[|points| - 1]) then k else |points|
  }

  /** The point an offset belongs to: the last visible one at or before it, else the first
      visible one of the method. */
  function Nearest(points: seq<Point>, il: int): Option<Point> {
    if LastVisible(points, il) >= 0 then Some(points[LastVisible(points, il)])
    else if FirstVisible(points) < |points| then Some(points[FirstVisible(points)])
    else None
  }

  /** The search of GetSequencePointByILOffset. */
  method FindNearest(points: seq<Point>, ilOffset: int) returns (r: Option<Point>)
    requires Increasing(points)
    ensures r == Nearest(points, ilOffset)
  {
    r := None;
    ghost var n := -1;
    for k := 0 to |points|
      invariant r.Some? <==> n >= 0
      invariant r.None? ==> forall m | 0 <= m < k :: Hidden(points[m])
      invariant r.Some? ==> 0 <= n < k && r.value == points[n] && !Hidden(points[n])
      invariant r.Some? ==> forall m | n < m < k :: Hidden(points[m])
      invariant r.Some? ==> points[n].offset <= ilOffset || forall m | 0 <= m < n :: Hidden(points[m])
    {
      if r.Some? && points[k].offset > ilOffset {
        break;
      }
      if !Hidden(points[k]) {
        r := Some(points[k]);
        n := k;
      }
    }
    if r.Some? && points[n].offset <= ilOffset {
      assert LastVisible(points, ilOffset) == n;
    }
  }

  /** Which point an offset belongs to: a visible one that is the last of those at or before the
      offset, or, with none at or before it, the first of all. */
  lemma NearestExact(points: seq<Point>, il: int, k: nat)
    requires Increasing(points) && k < |points|
    ensures Nearest(points, il) == Some(points[k]) <==>
      && points[k].startLine != 0xfeefee
      && if points[k].offset <= il
         then forall m | k < m < |points| && points[m].startLine != 0xfeefee :: points[m].offset > il
         else forall m | 0 <= m < k :: points[m].startLine == 0xfeefee
  {
    var last, first := LastVisible(points, il), FirstVisible(points);
    assert forall i, j | 0 <= i < j < |points| :: points[i].offset < points[j].offset;
    if Nearest(points, il) == Some(points[k]) && last >= 0 { assert last == k; }
    if Nearest(points, il) == Some(points[k]) && last < 0 { assert first == k; }
  }

  /** No point belongs to an offset exactly when the method has no visible one. */
  lemma NearestNone(points: seq<Point>, il: int)
    ensures Nearest(points, il).None? <==> forall k | 0 <= k < |points| :: points[k].startLine == 0xfeefee
  {
    if Nearest(points, il).None? {
      forall k | 0 <= k < |points| ensures points[k].startLine == 0xfeefee { assert Hidden(points[k]); }
    }
  }

  function IndexOf(methods: seq<MethodInfo>, token: int): (i: nat)
    ensures i <= |methods| && (i < |methods| ==> methods[i].token == token)
    ensures forall k | 0 <= k < i :: methods[k].token != token
  {
    if methods == [] then 0
    else
      var i := IndexOf(methods[..|methods| - 1], token);
      if i < |methods| - 1 || methods[|methods| - 1].token == token then i else |methods|
  }

  /** GetSequencePointByILOffset: a point without a line is not reported. */
  function Lookup(methods: seq<MethodInfo>, token: int, il: int): Option<Point> {
    var i := IndexOf(methods, token);
    if i == |methods| then None
    else
      match Nearest(methods[i].points, il)
      case Some(p) => if p.startLine == 0 then None else Some(p)
      case None => None
  }

  /** The lookup finds a point exactly when the method with the token has one for the offset that
      has a line. */
  lemma LookupExact(methods: seq<MethodInfo>, token: int, il: int, p: Point)
    requires WellFormed(methods)
    ensures Lookup(methods, token, il) == Some(p) <==>
      && p.startLine != 0
      && exists i :: 0 <= i < |methods| && methods[i].token == token && Nearest(methods[i].points, il) == Some(p)
  {
    var n := IndexOf(methods, token);
    if i :| 0 <= i < |methods| && methods[i].token == token && Nearest(methods[i].points, il) == Some(p) {
      assert n == i;
    }
  }

  /** Resolving a line and looking its offset up again gives the very point, exactly when the
      line is neither 0 nor the hidden line. */
  lemma ResolveThenLookup(methods: seq<MethodInfo>, matches: string -> bool, line: int)
    requires WellFormed(methods) && Resolved(methods, matches, line).Some?
    ensures var (i, j) := Resolved(methods, matches, line).value;
      Lookup(methods, methods[i].token, methods[i].points[j].offset) == Some(methods[i].points[j])
      <==> line != 0 && line != HIDDEN
  {
    var (i, j) := Resolved(methods, matches, line).value;
    assert IndexOf(methods, methods[i].token) == i;
  }

  /** The hidden line resolves to its point, and the lookup does not give that point. */
  lemma HiddenLine(p: Point, matches: string -> bool)
    requires p.startLine == HIDDEN && matches(p.document)
    ensures var methods := [MethodInfo(1, [p])];
      Resolved(methods, matches, HIDDEN) == Some((0, 0)) && Lookup(methods, 1, p.offset) != Some(p)
  {
    var methods := [MethodInfo(1, [p])];
    assert Candidate(methods[0].points[0], matches, HIDDEN);
    ResolvedIffKnown(methods, matches, HIDDEN);
    ResolveThenLookup(methods, matches, HIDDEN);
  }

  // ---------------------------------------------------------------- modules

  datatype ModuleInfo = ModuleInfo(address: nat, methods: seq<MethodInfo>)

  datatype Place = Place(address: nat, token: int, ilOffset: int, fullname: string)

  function LocationInModule(m: ModuleInfo, matches: string -> bool, line: int): Option<Place> {
    match Resolved(m.methods, matches, line)
    case None => None
    case Some((i, j)) =>
      var token, il := m.methods[i].token, m.methods[i].points[j].offset;
      match Lookup(m.methods, token, il)
      case None => None
      case Some(p) => Some(Place(m.address, token, il, p.document))
  }

  /** The first module, in the order of the module table, that knows the line. */
  function LocationInAny(modules: seq<ModuleInfo>, matches: string -> bool, line: int): Option<Place> {
    if modules == [] then None
    else
      match LocationInAny(modules[..|modules| - 1], matches, line)
      case Some(l) => Some(l)
      case None => LocationInModule(modules[|modules| - 1], matches, line)
  }

  /** A module gives a place for a line, but for line 0 and the hidden line, exactly when it has a
      point there. */
  lemma ModuleGives(m: ModuleInfo, matches: string -> bool, line: int)
    requires WellFormed(m.methods) && line != 0 && line != HIDDEN
    ensures LocationInModule(m, matches, line).Some? <==> Known(m.methods, matches, line)
  {
    ResolvedIffKnown(m.methods, matches, line);
    if Resolved(m.methods, matches, line).Some? { ResolveThenLookup(m.methods, matches, line); }
  }

  predicate Gives(m: ModuleInfo, matches: string -> bool, line: int) {
    LocationInModule(m, matches, line).Some?
  }

  lemma LastModule(modules: seq<ModuleInfo>, matches: string -> bool, line: int)
    requires modules != []
    ensures LocationInAny(modules, matches, line).Some? <==>
      LocationInAny(modules[..|modules| - 1], matches, line).Some? || Gives(modules[|modules| - 1], matches, line)
  {
  }

  lemma {:induction false} SomeGives(modules: seq<ModuleInfo>, matches: string -> bool, line: int)
    ensures LocationInAny(modules, matches, line).Some?
       <==> exists i :: 0 <= i < |modules| && Gives(modules[i], matches, line)
  {
    if modules != [] {
      var n := |modules| - 1;
      LastModule(modules, matches, line);
      SomeGives(modules[..n], matches, line);
      if i :| 0 <= i < n && Gives(modules[..n][i], matches, line) { assert Gives(modules[i], matches, line); }
      if i :| 0 <= i < n && Gives(modules[i], matches, line) { assert Gives(modules[..n][i], matches, line); }
    }
  }

  /** The search finds a place exactly when some module gives one, and it is that of the first. */
  lemma LocationExact(modules: seq<ModuleInfo>, matches: string -> bool, line: int)
    ensures LocationInAny(modules, matches, line).Some?
       <==> exists i :: 0 <= i < |modules| && Gives(modules[i], matches, line)
    ensures forall i | 0 <= i < |modules| && Gives(modules[i], matches, line)
                       && (forall j | 0 <= j < i :: !Gives(modules[j], matches, line)) ::
              LocationInAny(modules, matches, line) == LocationInModule(modules[i], matches, line)
  {
    SomeGives(modules, matches, line);
    forall i | 0 <= i < |modules| && Gives(modules[i], matches, line)
               && forall j | 0 <= j < i :: !Gives(modules[j], matches, line)
      ensures LocationInAny(modules, matches, line) == LocationInModule(modules[i], matches, line)
    {
      FirstGives(modules, matches, line, i);
    }
  }

  lemma FirstGives(modules: seq<ModuleInfo>, matches: string -> bool, line: int, i: nat)
    requires i < |modules| && Gives(modules[i], matches, line)
    requires forall j | 0 <= j < i :: !Gives(modules[j], matches, line)
    ensures LocationInAny(modules, matches, line) == LocationInModule(modules[i], matches, line)
  {
    SomeGives(modules[..i], matches, line);
    assert modules[..i + 1][..i] == modules[..i];
    FoundStays(modules, matches, line, i + 1);
  }

  method GetLocationInModule(m: ModuleInfo, matches: string -> bool, line: int) returns (r: Option<Place>)
    requires WellFormed(m.methods)
    ensures r == LocationInModule(m, matches, line)
  {
    r := None;
    var found, token, il := ResolveSequencePoint(m.methods, matches, line);
    if found {
      var i := IndexOf(m.methods, token);
      if i < |m.methods| {
        var p := FindNearest(m.methods[i].points, il);
        if p.Some? && p.value.startLine != 0 {
          r := Some(Place(m.address, token, il, p.value.document));
        }
      }
    }
  }

  method GetLocationInAny(modules: seq<ModuleInfo>, matches: string -> bool, line: int) returns (r: Option<Place>)
    requires forall m <- modules :: WellFormed(m.methods)
    ensures r == LocationInAny(modules, matches, line)
  {
    r := None;
    for k := 0 to |modules|
      invariant LocationInAny(modules[..k], matches, line) == None
    {
      assert modules[..k + 1][..k] == modules[..k];
      r := GetLocationInModule(modules[k], matches, line);
      if r.Some? {
        FoundStays(modules, matches, line, k + 1);
        return;
      }
    }
    assert modules[..|modules|] == modules;
    r := None;
  }

  lemma {:induction false} FoundStays(modules: seq<ModuleInfo>, matches: string -> bool, line: int, k: nat)
    requires k <= |modules| && LocationInAny(modules[..k], matches, line).Some?
    ensures LocationInAny(modules, matches, line) == LocationInAny(modules[..k], matches, line)
  {
    if k == |modules| {
      assert modules[..k] == modules;
    } else {
      assert modules[..|modules| - 1][..k] == modules[..k];
      FoundStays(modules[..|modules| - 1], matches, line, k);
    }
  }

  lemma {:induction false} LocationComesFrom(modules: seq<ModuleInfo>, matches: string -> bool, line: int)
    returns (m: ModuleInfo)
    requires LocationInAny(modules, matches, line).Some?
    ensures m in modules && LocationInModule(m, matches, line) == LocationInAny(modules, matches, line)
  {
    var n := |modules| - 1;
    if LocationInAny(modules[..n], matches, line).Some? {
      m := LocationComesFrom(modules[..n], matches, line);
    } else {
      m := modules[n];
    }
  }

  // ---------------------------------------------------------------- step ranges

  predicate StepTarget(p: Point) {
    p.startLine != 0 && p.startLine != HIDDEN
  }

  /** The first point after the first one that a step from `ip` may stop at. */
  function NextTarget(points: seq<Point>, ip: int): (i: nat)
    requires points != []
    ensures 1 <= i <= |points|
    ensures i < |points| ==> points[i].offset > ip && StepTarget(points[i])
    ensures forall k | 1 <= k < i :: points[k].offset <= ip || !StepTarget(points[k])
  {
    var n := |points| - 1;
    if n == 0 then 1
    else
      var i := NextTarget(points[..n], ip);
      if i < n || (points[n].offset > ip && StepTarget(points[n])) then i else |points|
  }

  /** The last point below `hi` that is at or before `ip`; the first point if there is none. */
  function LastAtOrBefore(points: seq<Point>, hi: nat, ip: int): (j: nat)
    requires 1 <= hi <= |points|
    ensures j < hi && (j > 0 ==> points[j].offset <= ip)
    ensures forall k | j < k < hi :: points[k].offset > ip
  {
    if hi == 1 || points[hi - 1].offset <= ip then hi - 1 else LastAtOrBefore(points, hi - 1, ip)
  }

  method GetStepRangesFromIP(points: seq<Point>, ip: int) returns (ok: bool, start: int, end: int)
    ensures ok == (points != [])
    ensures ok ==> var i := NextTarget(points, ip);
      && start == points[LastAtOrBefore(points, i, ip)].offset
      && end == if i < |points| then points[i].offset else start
  {
    start, end := 0, 0;
    var i := 1;
    while i < |points|
      invariant 1 <= i && (points != [] ==> i <= |points|)
      invariant forall k | 1 <= k < i :: k < |points| ==> points[k].offset <= ip || !StepTarget(points[k])
    {
      if points[i].offset > ip && StepTarget(points[i]) {
        start := SearchBack(points, i, ip);
        end := points[i].offset;
        return true, start, end;
      }
      i := i + 1;
    }
    if points != [] {
      start := SearchBack(points, |points|, ip);
      end := start;
      return true, start, end;
    }
    ok := false;
  }

  /** The inner, backward loop. */
  method SearchBack(points: seq<Point>, hi: nat, ip: int) returns (start: int)
    requires 1 <= hi <= |points|
    ensures start == points[LastAtOrBefore(points, hi, ip)].offset
  {
    start := points[0].offset;
    var j := hi - 1;
    while j > 0
      invariant 0 <= j < hi
      invariant LastAtOrBefore(points, hi, ip) == LastAtOrBefore(points, j + 1, ip)
    {
      if points[j].offset <= ip {
        start := points[j].offset;
        break;
      }
      j := j - 1;
    }
  }

  /** The range handed to the stepper: where the symbols give an empty range, it ends with the
      method's code. */
  method GetStepRange(points: seq<Point>, ip: int, codeSize: int) returns (ok: bool, start: int, end: int)
    ensures ok == (points != [])
    ensures ok ==> (start, end) == StepRange(points, ip, codeSize)
  {
    ok, start, end := GetStepRangesFromIP(points, ip);
    if ok && start == end {
      end := codeSize;
    }
  }

  function StepRange(points: seq<Point>, ip: int, codeSize: int): (int, int)
    requires points != []
  {
    var i := NextTarget(points, ip);
    var start := points[LastAtOrBefore(points, i, ip)].offset;
    (start, if i < |points| && points[i].offset != start then points[i].offset else codeSize)
  }

  /** A point that has a line and is not hidden. */
  predicate Shown(p: Point) {
    p.startLine != 0 && p.startLine != 0xfeefee
  }

  /** Whether a target lies beyond the current offset. */
  ghost predicate TargetBeyond(points: seq<Point>, ip: int) {
    exists k :: 1 <= k < |points| && Shown(points[k]) && points[k].offset > ip
  }

  /** The range contains the current offset exactly when it is not before the first point; it then
      starts at the last point at or before it and has no target strictly inside.  It ends at the
      first target beyond, or else with the code; with all points inside the code, it ends with
      the code exactly when no target lies beyond. */
  lemma StepRangeExact(points: seq<Point>, ip: int, codeSize: int)
    requires points != [] && Increasing(points) && ip < codeSize
    ensures var (start, end) := StepRange(points, ip, codeSize);
      && (start <= ip < end <==> points[0].offset <= ip)
      && (points[0].offset <= ip ==>
            && (exists k :: 0 <= k < |points| && points[k].offset == start)
            && (forall k | 0 <= k < |points| && points[k].offset <= ip :: points[k].offset <= start)
            && (forall k | 0 <= k < |points| && Shown(points[k]) :: !(start < points[k].offset < end)))
      && (TargetBeyond(points, ip) ==>
            && ip < end && (exists k :: 1 <= k < |points| && Shown(points[k]) && points[k].offset == end)
            && forall k | 1 <= k < |points| && Shown(points[k]) && points[k].offset > ip ::
                 end <= points[k].offset)
      && (!TargetBeyond(points, ip) ==> end == codeSize)
      && ((forall k | 0 <= k < |points| :: points[k].offset < codeSize)
          ==> (end == codeSize <==> !TargetBeyond(points, ip)))
  {
    var i := NextTarget(points, ip);
    var j := LastAtOrBefore(points, i, ip);
    if i < |points| {
      assert points[j].offset < points[i].offset;
      assert forall m | i <= m < |points| :: points[m].offset >= points[i].offset;
    }
    if points[0].offset <= ip {
      assert points[j].offset <= ip;
      assert forall k | 0 <= k < |points| && StepTarget(points[k]) ::
               !(points[j].offset < points[k].offset < StepRange(points, ip, codeSize).1);
      forall k | 0 <= k < |points| && points[k].offset <= ip ensures points[k].offset <= points[j].offset {
        assert k < i;
      }
    } else {
      assert j == 0;
    }
  }
}
