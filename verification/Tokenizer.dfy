/**
 The tokenizer of MI command lines and ParseLine.  Quoting with EscapeShellArg and
 tokenizing again gives the arguments back, exactly when no argument but the last is empty.
 */
module Tokenizing {
  import opened Escaping
  import opened Options
  import opened Text

  const DELIMITERS: set<char> := {' ', '\t', '\n', '\r'}

  /** The four characters between tokens. */
  lemma DelimitersAre(c: char)
    ensures c in DELIMITERS <==> c == ' ' || c == '\t' || c == '\n' || c == '\r'
  {
  }

  predicate Blank(s: string) {
    forall i | 0 <= i < |s| :: s[i] in DELIMITERS
  }

  function Trim(s: string): (r: string)
    ensures r <= s && Blank(s[|r|..])
    ensures r == [] || r[|r| - 1] !in DELIMITERS
  {
    if s != [] && s[|s| - 1] in DELIMITERS then Trim(s[..|s| - 1]) else s
  }

  datatype Phase = InSpace | InToken | InQuotes | InEscape

  datatype Token = Token(ok: bool, text: string, rest: string)

  /** The scanning loop of Next, from a given phase, on the rest of the line. */
  function Run(rest: string, phase: Phase, token: string): (r: Token)
    ensures |r.rest| <= |rest|
    ensures rest != [] && !(phase.InSpace? && token != []) ==> |r.rest| < |rest|
    decreases |rest|
  {
    if rest == [] then Token(phase != InEscape || token == [], token, [])
    else
      var c, tail := rest[0], rest[1..];
      match phase
      case InSpace =>
        if c in DELIMITERS then Run(tail, InSpace, token)
        else if token != [] then Token(true, token, rest)
        else if c == '"' then Run(tail, InQuotes, token)
        else Run(tail, InToken, token + [c])
      case InToken =>
        if c in DELIMITERS then Run(tail, InSpace, token) else Run(tail, InToken, token + [c])
      case InQuotes =>
        if c == '\\' then Run(tail, InEscape, token)
        else if c == '"' then Run(tail, InSpace, token)
        else Run(tail, InQuotes, token + [c])
      case InEscape => Run(tail, InQuotes, token + [c])
  }

  function NextToken(rest: string): (r: Token)
    ensures |r.rest| <= |rest|
    ensures rest != [] ==> |r.rest| < |rest|
  {
    if rest == [] then Token(false, [], []) else Run(rest, InSpace, [])
  }

  /** The tokens that Next gives until it fails. */
  function AllTokens(rest: string): seq<string>
    decreases |rest|
  {
    var t := NextToken(rest);
    if rest == [] || !t.ok then [] else [t.text] + AllTokens(t.rest)
  }

  class Tokenizer {
    var str: string
    var next: nat

    ghost predicate Valid()
      reads this
    {
      next <= |str|
    }

    function Rest(): string
      requires Valid()
      reads this
    {
      str[next..]
    }

    constructor (line: string)
      ensures Valid() && Rest() == Trim(line)
    {
      str, next := Trim(line), 0;
    }

    method Next() returns (ok: bool, token: string)
      requires Valid()
      modifies this
      ensures Valid()
      ensures Token(ok, token, Rest()) == NextToken(old(Rest()))
    {
      token := [];
      if next >= |str| {
        return false, token;
      }
      var phase := InSpace;
      while next < |str|
        invariant Valid() && str == old(str)
        invariant Run(Rest(), phase, token) == Run(old(Rest()), InSpace, [])
        decreases |str| - next
      {
        var c := str[next];
        assert Rest()[1..] == str[next + 1..];
        match phase {
          case InSpace =>
            if c !in DELIMITERS {
              if token != [] {
                return true, token;
              }
              if c == '"' {
                phase := InQuotes;
              } else {
                phase := InToken;
                token := token + [c];
              }
            }
          case InToken =>
            if c in DELIMITERS { phase := InSpace; } else { token := token + [c]; }
          case InQuotes =>
            if c == '\\' {
              phase := InEscape;
            } else if c == '"' {
              phase := InSpace;
            } else {
              token := token + [c];
            }
          case InEscape =>
            token := token + [c];
            phase := InQuotes;
        }
        next := next + 1;
      }
      ok := phase != InEscape || token == [];
    }

    method Remain() returns (rest: string)
      requires Valid()
      ensures rest == Rest()
    {
      rest := str[next..];
    }
  }

  // ---------------------------------------------------------------- quoted arguments

  function Quote(arg: string): string {
    ['"'] + (Escaped(Shell, arg) + ['"'])
  }

  function QuoteAll(args: seq<string>): string {
    if args == [] then []
    else if |args| == 1 then Quote(args[0])
    else Quote(args[0]) + ([' '] + QuoteAll(args[1..]))
  }

  lemma {:induction false} RunInQuotes(arg: string, tail: string, token: string)
    ensures Run(Escaped(Shell, arg) + (['"'] + tail), InQuotes, token) == Run(tail, InSpace, token + arg)
  {
    if arg == [] {
      assert Escaped(Shell, arg) + (['"'] + tail) == ['"'] + tail;
      assert token + arg == token;
    } else {
      var rest := Escaped(Shell, arg[1..]) + (['"'] + tail);
      assert Escaped(Shell, arg) + (['"'] + tail) == EscapedChar(Shell, arg[0]) + rest;
      RunInQuotes(arg[1..], tail, token + [arg[0]]);
      assert token + [arg[0]] + arg[1..] == token + arg;
    }
  }

  lemma RunQuoted(arg: string, tail: string)
    ensures Run(Quote(arg) + tail, InSpace, []) == Run(tail, InSpace, arg)
  {
    var inner := Escaped(Shell, arg) + (['"'] + tail);
    assert Quote(arg) + tail == ['"'] + inner;
    RunInQuotes(arg, tail, []);
    assert [] + arg == arg;
  }

  /** A character inside quotes, behind a backslash or not. */
  datatype Piece = Piece(escaped: bool, c: char)

  function Written(pieces: seq<Piece>): string {
    if pieces == [] then []
    else (if pieces[0].escaped then ['\\', pieces[0].c] else [pieces[0].c]) + Written(pieces[1..])
  }

  function Meant(pieces: seq<Piece>): string {
    if pieces == [] then [] else [pieces[0].c] + Meant(pieces[1..])
  }

  /** Between quotes, a backslash makes any character stand for itself, and only that makes a quote
      or a backslash one. */
  lemma {:induction false} QuotedMeans(pieces: seq<Piece>, tail: string, token: string)
    requires forall i | 0 <= i < |pieces| :: pieces[i].escaped || (pieces[i].c != '"' && pieces[i].c != '\\')
    ensures Run(Written(pieces) + tail, InQuotes, token) == Run(tail, InQuotes, token + Meant(pieces))
  {
    if pieces == [] {
      assert Written(pieces) + tail == tail && token + Meant(pieces) == token;
    } else {
      var p, rest := pieces[0], Written(pieces[1..]) + tail;
      WrittenFirst(pieces, tail, token);
      PieceMeans(p, rest, token);
      QuotedMeans(pieces[1..], tail, token + [p.c]);
    }
  }

  lemma WrittenFirst(pieces: seq<Piece>, tail: string, token: string)
    requires pieces != []
    ensures var p := pieces[0];
      Written(pieces) + tail == (if p.escaped then ['\\', p.c] else [p.c]) + (Written(pieces[1..]) + tail)
      && token + [p.c] + Meant(pieces[1..]) == token + Meant(pieces)
  {
  }

  lemma PieceMeans(p: Piece, rest: string, token: string)
    requires p.escaped || (p.c != '"' && p.c != '\\')
    ensures Run((if p.escaped then ['\\', p.c] else [p.c]) + rest, InQuotes, token)
         == Run(rest, InQuotes, token + [p.c])
  {
    if p.escaped {
      assert (['\\', p.c] + rest)[1..] == [p.c] + rest && ([p.c] + rest)[1..] == rest;
    } else {
      assert ([p.c] + rest)[1..] == rest;
    }
  }

  /** A text in quotes as the whole rest of a line: closed, or left open, it is a token; with a
      backslash at the end it is one only when it is empty. */
  lemma QuotedRest(pieces: seq<Piece>)
    requires forall i | 0 <= i < |pieces| :: pieces[i].escaped || (pieces[i].c != '"' && pieces[i].c != '\\')
    ensures NextToken(['"'] + Written(pieces)) == Token(true, Meant(pieces), [])
    ensures NextToken(['"'] + (Written(pieces) + ['"'])) == Token(true, Meant(pieces), [])
    ensures NextToken(['"'] + (Written(pieces) + ['\\'])) == Token(Meant(pieces) == [], Meant(pieces), [])
  {
    QuotedEnd(pieces, []);
    assert Written(pieces) + [] == Written(pieces);
    QuotedEnd(pieces, ['"']);
    QuotedEnd(pieces, ['\\']);
  }

  /** At the end of the line there is no token. */
  lemma NoneAtEnd()
    ensures NextToken([]) == Token(false, [], [])
  {
  }

  /** All tokens of such a rest. */
  lemma QuotedAlone(pieces: seq<Piece>)
    requires forall i | 0 <= i < |pieces| :: pieces[i].escaped || (pieces[i].c != '"' && pieces[i].c != '\\')
    ensures AllTokens(['"'] + (Written(pieces) + ['"'])) == [Meant(pieces)]
    ensures AllTokens(['"'] + (Written(pieces) + ['\\'])) == if Meant(pieces) == [] then [[]] else []
  {
    QuotedRest(pieces);
    assert AllTokens([]) == [];
  }

  lemma QuotedEnd(pieces: seq<Piece>, tail: string)
    requires forall i | 0 <= i < |pieces| :: pieces[i].escaped || (pieces[i].c != '"' && pieces[i].c != '\\')
    ensures NextToken(['"'] + (Written(pieces) + tail)) == Run(tail, InQuotes, Meant(pieces))
  {
    var all, rest := ['"'] + (Written(pieces) + tail), Written(pieces) + tail;
    assert all[0] == '"' && all[1..] == rest;
    QuotedMeans(pieces, tail, []);
    assert [] + Meant(pieces) == Meant(pieces);
  }

  /** The arguments that come back: an empty one is lost unless it is the last. */
  function Surviving(args: seq<string>): seq<string> {
    if |args| <= 1 then args
    else (if args[0] == [] then [] else [args[0]]) + Surviving(args[1..])
  }

  /** The first token of several quoted arguments. */
  lemma FirstOfQuoted(arg: string, others: string)
    requires others != [] && others[0] == '"'
    ensures NextToken(Quote(arg) + ([' '] + others))
         == if arg == [] then NextToken(others) else Token(true, arg, others)
  {
    RunQuoted(arg, [' '] + others);
    assert others == ['"'] + others[1..];
  }

  lemma {:induction false} TokensOfQuoted(args: seq<string>)
    ensures AllTokens(QuoteAll(args)) == Surviving(args)
  {
    if |args| == 1 {
      RunQuoted(args[0], []);
      assert Quote(args[0]) + [] == Quote(args[0]);
      assert AllTokens([]) == [];
    } else if |args| > 1 {
      var others := QuoteAll(args[1..]);
      TokensOfQuoted(args[1..]);
      FirstOfQuoted(args[0], others);
    }
  }

  /** Exactly the lists with no empty argument before the last one round-trip. */
  lemma RoundTripExact(args: seq<string>)
    ensures AllTokens(Trim(QuoteAll(args))) == args <==> forall i | 0 <= i < |args| - 1 :: args[i] != []
  {
    QuotedUntrimmed(args);
    TokensOfQuoted(args);
    SurvivingExact(args);
  }

  /** An empty argument before another one. */
  lemma EmptyArgumentLost(arg: string)
    ensures AllTokens(Trim(QuoteAll(["", arg]))) == [arg]
  {
    QuotedUntrimmed(["", arg]);
    TokensOfQuoted(["", arg]);
    assert ["", arg][1..] == [arg];
  }

  lemma {:induction false} QuotedUntrimmed(args: seq<string>)
    ensures Trim(QuoteAll(args)) == QuoteAll(args)
    ensures args != [] ==> QuoteAll(args) != [] && QuoteAll(args)[|QuoteAll(args)| - 1] == '"'
  {
    if |args| > 1 { QuotedUntrimmed(args[1..]); }
  }

  lemma {:induction false} SurvivingExact(args: seq<string>)
    ensures |Surviving(args)| <= |args|
    ensures Surviving(args) == args <==> forall i | 0 <= i < |args| - 1 :: args[i] != []
  {
    if |args| > 1 {
      SurvivingExact(args[1..]);
      assert forall i | 0 <= i < |args| - 2 :: args[1..][i] == args[i + 1];
      if args[0] != [] {
        if Surviving(args) == args {
          assert Surviving(args[1..]) == Surviving(args)[1..];
        }
        if forall i | 0 <= i < |args| - 1 :: args[i] != [] {
          assert [args[0]] + args[1..] == args;
        } else {
          var i :| 0 <= i < |args| - 1 && args[i] == [];
          assert args[1..][i - 1] == [];
        }
      }
    }
  }

  // ---------------------------------------------------------------- ParseLine

  datatype Line = Line(token: string, cmd: string, args: seq<string>)

  function DigitsLength(s: string): (k: nat)
    ensures k <= |s| && (forall i | 0 <= i < k :: IsDigit(s[i])) && (k < |s| ==> !IsDigit(s[k]))
  {
    if s == [] || !IsDigit(s[0]) then 0 else 1 + DigitsLength(s[1..])
  }

  predicate TakesRemainder(cmd: string) {
    cmd == "var-assign" || cmd == "break-condition"
  }

  function Parsed(str: string): Option<Line> {
    var first := NextToken(Trim(str));
    var k := DigitsLength(first.text);
    if !first.ok || k == |first.text| || first.text[k] != '-' then None
    else
      var cmd := first.text[k + 1..];
      var second := NextToken(first.rest);
      Some(Line(first.text[..k], cmd,
                if TakesRemainder(cmd) then [second.text, second.rest] else AllTokens(first.rest)))
  }

  /** A line is a command exactly when its first token is digits, a dash and anything. */
  lemma ParsedExact(str: string)
    ensures Parsed(str).Some? <==>
      && NextToken(Trim(str)).ok
      && exists k: nat :: k < |NextToken(Trim(str)).text| && NextToken(Trim(str)).text[k] == '-'
                          && forall i | 0 <= i < k :: '0' <= NextToken(Trim(str)).text[i] <= '9'
  {
    var first := NextToken(Trim(str)).text;
    var n := DigitsLength(first);
    if k: nat :| k < |first| && first[k] == '-' && forall i | 0 <= i < k :: '0' <= first[i] <= '9' {
      assert k == n;
    }
  }

  /** The loop that reads all further tokens. */
  method RemainingTokens(tokenizer: Tokenizer) returns (args: seq<string>)
    requires tokenizer.Valid()
    modifies tokenizer
    ensures args == AllTokens(old(tokenizer.Rest()))
  {
    args := [];
    var found, result := tokenizer.Next();
    while found
      invariant tokenizer.Valid()
      invariant AllTokens(old(tokenizer.Rest())) == args + if found then [result] + AllTokens(tokenizer.Rest()) else []
      decreases |tokenizer.Rest()|, found
    {
      args := args + [result];
      found, result := tokenizer.Next();
    }
  }

  method ParseLine(str: string) returns (ok: bool, token: string, cmd: string, args: seq<string>)
    ensures ok == Parsed(str).Some?
    ensures ok ==> Line(token, cmd, args) == Parsed(str).value
    ensures !ok ==> token == [] && cmd == [] && args == []
  {
    token, cmd, args := [], [], [];
    var tokenizer := new Tokenizer(str);
    var found, result := tokenizer.Next();
    if !found || result == [] {
      return false, token, cmd, args;
    }
    var i := DigitsLength(result);
    if i == |result| || result[i] != '-' {
      return false, token, cmd, args;
    }
    token, cmd := result[..i], result[i + 1..];
    if cmd == "var-assign" || cmd == "break-condition" {
      found, result := tokenizer.Next();
      var remain := tokenizer.Remain();
      return true, token, cmd, [result, remain];
    }
    args := RemainingTokens(tokenizer);
    ok := true;
  }

  predicate Word(s: string) {
    s != [] && s[0] != '"' && forall i | 0 <= i < |s| :: s[i] !in DELIMITERS
  }

  lemma {:induction false} RunBlank(gap: string, tail: string, token: string)
    requires Blank(gap)
    ensures Run(gap + tail, InSpace, token) == Run(tail, InSpace, token)
  {
    if gap == [] {
      assert gap + tail == tail;
    } else {
      assert (gap + tail)[1..] == gap[1..] + tail;
      RunBlank(gap[1..], tail, token);
    }
  }

  lemma {:induction false} RunLetters(w: string, tail: string, token: string)
    requires forall i | 0 <= i < |w| :: w[i] !in DELIMITERS
    ensures Run(w + tail, InToken, token) == Run(tail, InToken, token + w)
  {
    if w == [] {
      assert w + tail == tail && token + w == token;
    } else {
      assert (w + tail)[1..] == w[1..] + tail;
      RunLetters(w[1..], tail, token + [w[0]]);
      assert token + [w[0]] + w[1..] == token + w;
    }
  }

  /** The text without the delimiters that it starts with. */
  function Unblank(s: string): (r: string)
    ensures |r| <= |s| && (r == [] || r[0] !in DELIMITERS)
    ensures Blank(s[..|s| - |r|]) && s[|s| - |r|..] == r
  {
    if s != [] && s[0] in DELIMITERS then Unblank(s[1..]) else s
  }

  /** Behind a token, blanks are skipped. */
  lemma RunSkips(s: string, token: string)
    requires token != []
    ensures Run(s, InSpace, token) == Token(true, token, Unblank(s))
  {
    var r := Unblank(s);
    var gap := s[..|s| - |r|];
    assert s == gap + r;
    RunBlank(gap, r, token);
  }

  /** A word, followed by a delimiter or the end: the word is the next token. */
  lemma NextWord(w: string, tail: string)
    requires Word(w) && (tail == [] || tail[0] in DELIMITERS)
    ensures NextToken(w + tail) == Token(true, w, Unblank(tail))
  {
    assert (w + tail)[1..] == w[1..] + tail;
    RunLetters(w[1..], tail, [w[0]]);
    assert [] + [w[0]] == [w[0]] && [w[0]] + w[1..] == w;
    if tail != [] { RunSkips(tail[1..], w); }
  }

  /** A quoted text that is not empty is the next token, whatever follows. */
  lemma NextQuoted(arg: string, tail: string)
    requires arg != []
    ensures NextToken(Quote(arg) + tail) == Token(true, arg, Unblank(tail))
  {
    RunQuoted(arg, tail);
    RunSkips(tail, arg);
  }

  lemma {:induction false} TrimBlank(s: string, trail: string)
    requires Blank(trail) && s != [] && s[|s| - 1] !in DELIMITERS
    ensures Trim(s + trail) == s
  {
    if trail == [] {
      assert s + trail == s;
    } else {
      assert (s + trail)[..|s + trail| - 1] == s + trail[..|trail| - 1];
      TrimBlank(s, trail[..|trail| - 1]);
    }
  }

  lemma {:induction false} DigitsThen(digits: string, rest: string)
    requires (forall i | 0 <= i < |digits| :: IsDigit(digits[i])) && rest != [] && !IsDigit(rest[0])
    ensures DigitsLength(digits + rest) == |digits|
    ensures (digits + rest)[|digits|..] == rest && (digits + rest)[..|digits|] == digits
  {
    if digits == [] {
      assert digits + rest == rest;
    } else {
      assert (digits + rest)[1..] == digits[1..] + rest;
      DigitsThen(digits[1..], rest);
    }
  }

  lemma LineTrimmed(front: string, after: string, trail: string)
    requires after != [] && after[|after| - 1] !in DELIMITERS && Blank(trail)
    ensures Trim(front + after + trail) == front + after
  {
    TrimBlank(front + after, trail);
  }

  /** Trimming leaves a text alone that does not end in a blank, and removes what is blank. */
  lemma TrimBehind(word: string, tail: string)
    requires word != [] && word[|word| - 1] !in DELIMITERS
    ensures Trim(word + tail) == word + Trim(tail)
  {
    var t := Trim(tail);
    var trail := tail[|t|..];
    assert word + tail == word + t + trail;
    assert t != [] ==> (word + t)[|word + t| - 1] == t[|t| - 1];
    TrimBlank(word + t, trail);
  }

  /** The parse of a line, by its first token. */
  lemma ParsedByFirst(str: string, digits: string, cmd: string, after: string)
    requires forall i | 0 <= i < |digits| :: IsDigit(digits[i])
    requires forall i | 0 <= i < |cmd| :: cmd[i] !in DELIMITERS
    requires NextToken(Trim(str)) == Token(true, digits + ("-" + cmd), after)
    ensures Parsed(str) == Some(Line(digits, cmd,
                if cmd == "var-assign" || cmd == "break-condition" then [NextToken(after).text, NextToken(after).rest]
                else AllTokens(after)))
  {
    WordOfCommand(digits, cmd);
  }

  lemma FirstOfLine(word: string, tail: string)
    requires Word(word) && (tail == [] || tail[0] in DELIMITERS)
    ensures NextToken(Trim(word + tail)) == Token(true, word, Unblank(Trim(tail)))
  {
    TrimBehind(word, tail);
    NextWord(word, Trim(tail));
  }

  /** How any line splits that starts with digits, a dash and a word, with anything or nothing
      behind it: two commands take a token and the rest of the line, all others every token. */
  lemma LineSplit(digits: string, cmd: string, tail: string)
    requires forall i | 0 <= i < |digits| :: IsDigit(digits[i])
    requires forall i | 0 <= i < |cmd| :: cmd[i] !in DELIMITERS
    requires tail == [] || tail[0] in DELIMITERS
    ensures var after := Unblank(Trim(tail));
      var second := NextToken(after);
      Parsed(digits + ("-" + cmd) + tail)
      == Some(Line(digits, cmd,
                   if cmd == "var-assign" || cmd == "break-condition" then [second.text, second.rest]
                   else AllTokens(after)))
  {
    assert Word(digits + ("-" + cmd)) by { WordOfCommand(digits, cmd); }
    FirstOfLine(digits + ("-" + cmd), tail);
    ParsedByFirst(digits + ("-" + cmd) + tail, digits, cmd, Unblank(Trim(tail)));
  }

  /** A bare command has no arguments; one that takes a remainder has two empty ones. */
  lemma BareCommand(digits: string, cmd: string, trail: string)
    requires forall i | 0 <= i < |digits| :: IsDigit(digits[i])
    requires (forall i | 0 <= i < |cmd| :: cmd[i] !in DELIMITERS) && Blank(trail)
    ensures Parsed(digits + ("-" + cmd) + trail)
      == Some(Line(digits, cmd, if cmd == "var-assign" || cmd == "break-condition" then ["", ""] else []))
  {
    LineSplit(digits, cmd, trail);
    BlankTrimmed(trail);
  }

  lemma {:induction false} BlankTrimmed(s: string)
    requires Blank(s)
    ensures Trim(s) == []
  {
    if s != [] { BlankTrimmed(s[..|s| - 1]); }
  }

  /** An expression as it arrives: nothing, or text without outer blanks. */
  predicate Untrimmed(s: string) {
    s == [] || (s[0] !in DELIMITERS && s[|s| - 1] !in DELIMITERS)
  }

  /** The id of a condition command, as a word or quoted. */
  function IdText(id: string, quoted: bool): string {
    if quoted then Quote(id) else id
  }

  /** The condition command, and the other one that takes a remainder: the expression, which may
      be empty, arrives verbatim without its outer blanks, behind an id that is a word or quoted. */
  lemma BreakConditionParsed(digits: string, cmd: string, gap: string, id: string, quoted: bool, gap2: string,
                             expr: string, trail: string)
    requires (forall i | 0 <= i < |digits| :: IsDigit(digits[i])) && (cmd == "break-condition" || cmd == "var-assign")
    requires gap != [] && Blank(gap) && Blank(gap2) && Blank(trail) && Untrimmed(expr)
    requires if quoted then id != [] else Word(id) && (gap2 != [] || expr == [])
    ensures Parsed(digits + ("-" + cmd) + (gap + (IdText(id, quoted) + (gap2 + expr)) + trail))
         == Some(Line(digits, cmd, [id, expr]))
  {
    var text := IdText(id, quoted);
    var line := gap + (text + (gap2 + expr)) + trail;
    assert text[0] !in DELIMITERS && text[|text| - 1] !in DELIMITERS;
    assert Unblank(Trim(line)) == text + Trim(gap2 + expr + trail) by {
      ArgumentsArrive(gap, text, gap2, expr, trail);
    }
    assert NextToken(text + Trim(gap2 + expr + trail)) == Token(true, id, expr) by {
      IdArrives(id, quoted, gap2, expr, trail);
    }
    assert line[0] == gap[0];
    RemainderLine(digits, cmd, line, id, expr);
  }

  lemma RemainderLine(digits: string, cmd: string, tail: string, id: string, expr: string)
    requires (forall i | 0 <= i < |digits| :: IsDigit(digits[i])) && (cmd == "break-condition" || cmd == "var-assign")
    requires (tail == [] || tail[0] in DELIMITERS) && NextToken(Unblank(Trim(tail))) == Token(true, id, expr)
    ensures Parsed(digits + ("-" + cmd) + tail) == Some(Line(digits, cmd, [id, expr]))
  {
    RemainderWord(cmd);
    LineSplit(digits, cmd, tail);
  }

  lemma RemainderWord(cmd: string)
    requires cmd == "break-condition" || cmd == "var-assign"
    ensures forall i | 0 <= i < |cmd| :: cmd[i] !in DELIMITERS
  {
  }

  lemma ArgumentsArrive(gap: string, id: string, gap2: string, expr: string, trail: string)
    requires Blank(gap) && id != [] && id[0] !in DELIMITERS && id[|id| - 1] !in DELIMITERS
    ensures Unblank(Trim(gap + (id + (gap2 + expr)) + trail)) == id + Trim(gap2 + expr + trail)
  {
    assert gap + (id + (gap2 + expr)) + trail == gap + (id + (gap2 + expr + trail));
    ConditionTrimmed(gap, id, gap2, expr, trail);
    Unblanked(gap, id + Trim(gap2 + expr + trail));
  }

  lemma IdArrives(id: string, quoted: bool, gap2: string, expr: string, trail: string)
    requires Blank(gap2) && Blank(trail) && Untrimmed(expr)
    requires if quoted then id != [] else Word(id) && (gap2 != [] || expr == [])
    ensures NextToken(IdText(id, quoted) + Trim(gap2 + expr + trail)) == Token(true, id, expr)
  {
    var tail := Trim(gap2 + expr + trail);
    ExpressionArrives(gap2, expr, trail);
    if quoted { NextQuoted(id, tail); } else { NextWord(id, tail); }
  }

  lemma ConditionTrimmed(gap: string, id: string, gap2: string, expr: string, trail: string)
    requires id != [] && id[|id| - 1] !in DELIMITERS
    ensures Trim(gap + (id + (gap2 + expr + trail))) == gap + (id + Trim(gap2 + expr + trail))
  {
    var front, tail := gap + id, gap2 + expr + trail;
    assert front[|front| - 1] == id[|id| - 1];
    assert gap + (id + tail) == front + tail;
    TrimBehind(front, tail);
    assert front + Trim(tail) == gap + (id + Trim(tail));
  }

  lemma {:induction false} Unblanked(gap: string, s: string)
    requires Blank(gap) && (s == [] || s[0] !in DELIMITERS)
    ensures Unblank(gap + s) == s
  {
    if gap == [] {
      assert gap + s == s;
    } else {
      assert (gap + s)[1..] == gap[1..] + s;
      Unblanked(gap[1..], s);
    }
  }

  lemma ExpressionArrives(gap2: string, expr: string, trail: string)
    requires Blank(gap2) && Blank(trail) && Untrimmed(expr)
    ensures Unblank(Trim(gap2 + expr + trail)) == expr
    ensures var t := Trim(gap2 + expr + trail); t == [] || gap2 == [] || t[0] in DELIMITERS
    ensures expr == [] ==> Trim(gap2 + expr + trail) == []
  {
    if expr == [] {
      assert gap2 + expr + trail == gap2 + trail;
      BlankTrimmed(gap2 + expr + trail);
    } else {
      LineTrimmed(gap2, expr, trail);
      Unblanked(gap2, expr);
    }
  }

  lemma WordOfCommand(digits: string, cmd: string)
    requires forall i | 0 <= i < |digits| :: IsDigit(digits[i])
    requires forall i | 0 <= i < |cmd| :: cmd[i] !in DELIMITERS
    ensures Word(digits + ("-" + cmd)) && digits + "-" + cmd == digits + ("-" + cmd)
    ensures DigitsLength(digits + ("-" + cmd)) == |digits|
    ensures (digits + ("-" + cmd))[..|digits|] == digits
    ensures (digits + ("-" + cmd))[|digits|] == '-'
    ensures (digits + ("-" + cmd))[|digits| + 1..] == cmd
  {
    DigitsThen(digits, "-" + cmd);
  }

  /** Any other command: its quoted arguments arrive as they were sent, but for empty ones. */
  lemma CommandParsed(digits: string, cmd: string, args: seq<string>)
    requires forall i | 0 <= i < |digits| :: IsDigit(digits[i])
    requires (forall i | 0 <= i < |cmd| :: cmd[i] !in DELIMITERS) && cmd != "var-assign" && cmd != "break-condition"
    ensures Parsed(digits + ("-" + cmd) + (" " + QuoteAll(args))) == Some(Line(digits, cmd, Surviving(args)))
  {
    var tail := " " + QuoteAll(args);
    LineSplit(digits, cmd, tail);
    assert Unblank(Trim(tail)) == QuoteAll(args) by { QuotedArrives(args); }
    TokensOfQuoted(args);
  }

  lemma QuotedArrives(args: seq<string>)
    ensures Unblank(Trim(" " + QuoteAll(args))) == QuoteAll(args)
  {
    var tail := " " + QuoteAll(args);
    if args == [] {
      BlankTrimmed(tail);
    } else {
      QuotedUntrimmed(args);
      TrimBlank(tail, []);
      assert tail + [] == tail;
      Unblanked(" ", QuoteAll(args));
    }
  }
}
