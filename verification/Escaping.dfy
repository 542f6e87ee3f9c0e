/**
 The two in-place escapers: EscapeMIValue, for the c-strings of the MI output, and
 EscapeShellArg, for the arguments of the command line.
 */
module Escaping {

  import opened Options

  datatype Table = Mi | Shell

  /** The character that follows the backslash, for the characters that are escaped. */
  function Code(table: Table, c: char): Option<char> {
    if c == '"' || c == '\\' then Some(c)
    else if table.Shell? then None
    else match c
      case '\0' => Some('0')
      case '\U{0007}' => Some('a')
      case '\U{0008}' => Some('b')
      case '\U{000C}' => Some('f')
      case '\n' => Some('n')
      case '\r' => Some('r')
      case '\t' => Some('t')
      case '\U{000B}' => Some('v')
      case _ => None
  }

  function EscapedChar(table: Table, c: char): string {
    match Code(table, c)
    case None => [c]
    case Some(code) => ['\\', code]
  }

  /** Which characters are escaped: quote and backslash, which stand for themselves behind the
      backslash; and in MI values the eight control characters of C, which do not stay as they are. */
  lemma EscapedCharExact(table: Table, c: char)
    ensures EscapedChar(table, c) == [c] <==>
      && c != '"' && c != '\\'
      && (table.Mi? ==> c !in {'\0', '\U{0007}', '\U{0008}', '\U{000C}', '\n', '\r', '\t', '\U{000B}'})
    ensures EscapedChar(table, c) != [c] ==> |EscapedChar(table, c)| == 2 && EscapedChar(table, c)[0] == '\\'
    ensures c == '"' || c == '\\' ==> EscapedChar(table, c) == ['\\', c]
  {
  }

  /** Per-character expansion. */
  function Escaped(table: Table, s: string): string {
    if s == [] then [] else EscapedChar(table, s[0]) + Escaped(table, s[1..])
  }

  lemma InsertThenSet(done: string, ahead: string, code: char)
    requires ahead != []
    ensures var s := done + ahead;
      (s[..|done|] + ['\\'] + s[|done|..])[|done| + 1 := code] == done + ['\\', code] + ahead[1..]
  {
  }

  lemma ExpandFirst(table: Table, done: string, ahead: string)
    requires ahead != []
    ensures done + Escaped(table, ahead) == done + EscapedChar(table, ahead[0]) + Escaped(table, ahead[1..])
  {
  }

  /** The loop that inserts a backslash into the string it is scanning. */
  method Escape(table: Table, str: string) returns (s: string)
    ensures s == Escaped(table, str)
  {
    s := str;
    var i := 0;
    ghost var done, ahead := "", str;
    while i < |s|
      invariant s == done + ahead && i == |done|
      invariant Escaped(table, str) == done + Escaped(table, ahead)
      decreases |ahead|
    {
      var count := 0;
      var c := s[i];
      ExpandFirst(table, done, ahead);
      var code := Code(table, c);
      if code.Some? {
        count := 1;
        InsertThenSet(done, ahead, code.value);
        s := s[..i] + ['\\'] + s[i..];
        s := s[i + count := code.value];
      }
      done, ahead := done + EscapedChar(table, c), ahead[1..];
      i := i + count + 1;
    }
  }

  // ---------------------------------------------------------------- the left inverse

  /** The character an MI escape stands for. */
  function Decode(code: char): Option<char> {
    match code
    case '"' => Some('"')
    case '\\' => Some('\\')
    case '0' => Some('\0')
    case 'a' => Some('\U{0007}')
    case 'b' => Some('\U{0008}')
    case 'f' => Some('\U{000C}')
    case 'n' => Some('\n')
    case 'r' => Some('\r')
    case 't' => Some('\t')
    case 'v' => Some('\U{000B}')
    case _ => None
  }

  /** Undoes the escaping, one code behind each backslash. */
  function Unescaped(s: string): Option<string> {
    if s == [] then Some("")
    else if s[0] != '\\' then
      var value :- Unescaped(s[1..]);
      Some([s[0]] + value)
    else if |s| == 1 then None
    else
      var c :- Decode(s[1]);
      var value :- Unescaped(s[2..]);
      Some([c] + value)
  }

  lemma {:induction false} UnescapedInverts(s: string)
    ensures Unescaped(Escaped(Mi, s)) == Some(s)
  {
    if s != [] {
      UnescapedInverts(s[1..]);
      var head, tail := EscapedChar(Mi, s[0]), Escaped(Mi, s[1..]);
      assert (head + tail)[|head|..] == tail;
      assert [s[0]] + s[1..] == s;
    }
  }

  /** Different values have different texts. */
  lemma EscapedInjective(a: string, b: string)
    requires Escaped(Mi, a) == Escaped(Mi, b)
    ensures a == b
  {
    UnescapedInverts(a);
    UnescapedInverts(b);
  }

  // ---------------------------------------------------------------- the c-string of the MI syntax

  predicate Octal(c: char) {
    '0' <= c <= '7'
  }

  /** How many of the first `most` characters are octal digits in a row. */
  function OctalRun(s: string, most: nat): (k: nat)
    ensures k <= |s| && k <= most && forall i | 0 <= i < k :: Octal(s[i])
    ensures k < |s| && k < most ==> !Octal(s[k])
  {
    if most == 0 || s == [] || !Octal(s[0]) then 0 else 1 + OctalRun(s[1..], most - 1)
  }

  function OctalValue(s: string): (v: nat)
    requires forall i | 0 <= i < |s| :: Octal(s[i])
    ensures |s| <= 3 ==> v < 512
    ensures |s| <= 2 ==> v < 64
    ensures |s| <= 1 ==> v < 8
    ensures |s| == 0 ==> v == 0
  {
    if s == [] then 0
    else
      assert Octal(s[|s| - 1]);
      8 * OctalValue(s[..|s| - 1]) + (s[|s| - 1] - '0') as nat
  }

  /** An escape of ISO C, `s` being behind the backslash: the character, and how many characters
      of `s` it takes.  Hexadecimal escapes, which the escaper does not write, are not read. */
  function Escape1(s: string): Option<(char, nat)> {
    if s == [] then None
    else if Octal(s[0]) then
      var k := OctalRun(s, 3);
      Some((OctalValue(s[..k]) as char, k))
    else
      match s[0]
      case '\'' => Some(('\'', 1))
      case '?' => Some(('?', 1))
      case _ =>
        var c :- Decode(s[0]);
        Some((c, 1))
  }

  /** A reader of c-strings: `s` starts behind the opening quote; the result is the value and
      what follows the closing quote. */
  function ReadCString(s: string): Option<(string, string)>
    decreases |s|
  {
    if s == [] then None
    else if s[0] == '"' then Some(("", s[1..]))
    else if s[0] != '\\' then
      var more :- ReadCString(s[1..]);
      Some(([s[0]] + more.0, more.1))
    else
      var e :- Escape1(s[1..]);
      var more :- ReadCString(s[1 + e.1..]);
      Some(([e.0] + more.0, more.1))
  }

  /** What the reader makes of a value: NUL takes in up to two octal digits that follow it. */
  function Received(s: string): string {
    if s == [] then ""
    else if s[0] != '\0' then [s[0]] + Received(s[1..])
    else
      var k := OctalRun(s[1..], 2);
      [OctalValue(s[1..1 + k]) as char] + Received(s[1 + k..])
  }

  lemma {:induction false} OctalPlain(s: string)
    requires forall i | 0 <= i < |s| :: Octal(s[i])
    ensures Escaped(Mi, s) == s
  {
    if s != [] { OctalPlain(s[1..]); }
  }

  lemma {:induction false} EscapedConcat(a: string, b: string)
    ensures Escaped(Mi, a + b) == Escaped(Mi, a) + Escaped(Mi, b)
  {
    if a == [] {
      assert a + b == b;
    } else {
      assert (a + b)[1..] == a[1..] + b;
      EscapedConcat(a[1..], b);
    }
  }

  /** A run of digits ends where the text goes on with something else. */
  lemma {:induction false} OctalRunIs(digits: string, s: string, most: nat)
    requires (forall i | 0 <= i < |digits| :: Octal(digits[i])) && |digits| <= most
    requires |digits| == most || s == [] || !Octal(s[0])
    ensures OctalRun(digits + s, most) == |digits|
  {
    if digits == [] {
      assert digits + s == s;
    } else {
      assert (digits + s)[1..] == digits[1..] + s;
      OctalRunIs(digits[1..], s, most - 1);
    }
  }

  lemma {:induction false} LeadingZero(digits: string)
    requires forall i | 0 <= i < |digits| :: Octal(digits[i])
    ensures OctalValue(['0'] + digits) == OctalValue(digits)
  {
    var all := ['0'] + digits;
    if digits != [] {
      assert all[..|all| - 1] == ['0'] + digits[..|digits| - 1];
      LeadingZero(digits[..|digits| - 1]);
    } else {
      assert all[..0] == [];
    }
  }

  /** What follows a value's NUL and its digits starts with no octal digit. */
  lemma AfterDigits(s: string, tail: string)
    requires s == [] || !Octal(s[0])
    ensures var after := Escaped(Mi, s) + ['"'] + tail; !Octal(after[0])
  {
    if s != [] {
      assert Escaped(Mi, s)[0] == EscapedChar(Mi, s[0])[0];
    }
  }

  lemma ReadHead(c: char, tail: string)
    requires c != '\0' && ReadCString(tail).Some?
    ensures var (value, rest) := ReadCString(tail).value;
      ReadCString(EscapedChar(Mi, c) + tail) == Some(([c] + value, rest))
  {
    var head := EscapedChar(Mi, c);
    assert (head + tail)[|head|..] == tail;
    if |head| == 2 { assert (head + tail)[1..][0] == head[1]; }
  }

  lemma ReadOctal(digits: string, tail: string)
    requires 1 <= |digits| <= 3 && forall i | 0 <= i < |digits| :: Octal(digits[i])
    requires (|digits| == 3 || tail == [] || !Octal(tail[0])) && ReadCString(tail).Some?
    ensures var (value, rest) := ReadCString(tail).value;
      ReadCString(['\\'] + (digits + tail)) == Some(([OctalValue(digits) as char] + value, rest))
  {
    var text := ['\\'] + (digits + tail);
    OctalRunIs(digits, tail, 3);
    assert text[1..] == digits + tail && (digits + tail)[..|digits|] == digits;
    assert (digits + tail)[0] == digits[0];
    assert text[1 + |digits|..] == tail;
  }

  lemma EscapedFirst(c: char, s: string)
    ensures Escaped(Mi, [c] + s) == EscapedChar(Mi, c) + Escaped(Mi, s)
  {
    assert ([c] + s)[1..] == s;
  }

  lemma NulText(digits: string, after: string)
    requires forall i | 0 <= i < |digits| :: Octal(digits[i])
    ensures Escaped(Mi, ['\0'] + (digits + after)) == ['\\'] + ((['0'] + digits) + Escaped(Mi, after))
  {
    EscapedFirst('\0', digits + after);
    assert Escaped(Mi, digits + after) == digits + Escaped(Mi, after) by {
      EscapedConcat(digits, after);
      OctalPlain(digits);
    }
    Regroup(digits, Escaped(Mi, after));
  }

  lemma Regroup(digits: string, tail: string)
    ensures ['\\', '0'] + (digits + tail) == ['\\'] + ((['0'] + digits) + tail)
  {
  }

  /** The reader stops exactly at the closing quote, whatever the value and whatever follows. */
  lemma {:induction false} CStringStops(s: string, rest: string)
    ensures ReadCString(Escaped(Mi, s) + ['"'] + rest) == Some((Received(s), rest))
    decreases |s|
  {
    if s == [] {
      assert Escaped(Mi, s) + ['"'] + rest == ['"'] + rest && (['"'] + rest)[1..] == rest;
    } else if s[0] != '\0' {
      CStringStops(s[1..], rest);
      HeadReceived(s, rest);
    } else {
      var k := OctalRun(s[1..], 2);
      CStringStops(s[1 + k..], rest);
      NulReceived(s, k, rest);
    }
  }

  lemma HeadQuoted(s: string, rest: string)
    requires s != []
    ensures Escaped(Mi, s) + ['"'] + rest == EscapedChar(Mi, s[0]) + (Escaped(Mi, s[1..]) + ['"'] + rest)
  {
  }

  lemma HeadReceived(s: string, rest: string)
    requires s != [] && s[0] != '\0'
    requires ReadCString(Escaped(Mi, s[1..]) + ['"'] + rest) == Some((Received(s[1..]), rest))
    ensures ReadCString(Escaped(Mi, s) + ['"'] + rest) == Some((Received(s), rest))
  {
    HeadQuoted(s, rest);
    ReadHead(s[0], Escaped(Mi, s[1..]) + ['"'] + rest);
  }

  lemma NulRead(digits: string, tail: string)
    requires |digits| <= 2 && forall i | 0 <= i < |digits| :: Octal(digits[i])
    requires (|digits| == 2 || tail == [] || !Octal(tail[0])) && ReadCString(tail).Some?
    ensures var (value, rest) := ReadCString(tail).value;
      ReadCString(['\\'] + ((['0'] + digits) + tail)) == Some(([OctalValue(digits) as char] + value, rest))
  {
    ReadOctal(['0'] + digits, tail);
    LeadingZero(digits);
  }

  lemma NulQuoted(digits: string, after: string, rest: string)
    requires forall i | 0 <= i < |digits| :: Octal(digits[i])
    ensures Escaped(Mi, ['\0'] + (digits + after)) + ['"'] + rest
         == ['\\'] + ((['0'] + digits) + (Escaped(Mi, after) + ['"'] + rest))
  {
    NulText(digits, after);
  }

  lemma NulReceived(s: string, k: nat, rest: string)
    requires s != [] && s[0] == '\0' && k == OctalRun(s[1..], 2)
    requires ReadCString(Escaped(Mi, s[1 + k..]) + ['"'] + rest) == Some((Received(s[1 + k..]), rest))
    ensures ReadCString(Escaped(Mi, s) + ['"'] + rest) == Some((Received(s), rest))
  {
    var digits, after := s[1..1 + k], s[1 + k..];
    assert s == ['\0'] + (digits + after);
    NulQuoted(digits, after, rest);
    if k < 2 { AfterDigits(after, rest); }
    NulRead(digits, Escaped(Mi, after) + ['"'] + rest);
  }

  /** No NUL of the value stands directly before an octal digit. */
  predicate NulsApart(s: string) {
    forall i | 0 <= i < |s| - 1 :: s[i] == '\0' ==> !Octal(s[i + 1])
  }

  lemma {:induction false} ReceivedExact(s: string)
    ensures |Received(s)| <= |s|
    ensures Received(s) == s <==> NulsApart(s)
    decreases |s|
  {
    if s == [] {
    } else if s[0] != '\0' {
      ReceivedExact(s[1..]);
      assert s == [s[0]] + s[1..];
      ApartTail(s);
      assert Received(s)[1..] == Received(s[1..]);
    } else {
      var k := OctalRun(s[1..], 2);
      ReceivedExact(s[1 + k..]);
      if k == 0 {
        assert s[1..1] == [] && s == ['\0'] + s[1..];
        ApartTail(s);
        assert Received(s)[1..] == Received(s[1..]);
      } else {
        assert Octal(s[1..][0]);
      }
    }
  }

  lemma ApartTail(s: string)
    requires s != [] && (s[0] == '\0' && |s| > 1 ==> !Octal(s[1]))
    ensures NulsApart(s) <==> NulsApart(s[1..])
  {
    var t := s[1..];
    if NulsApart(t) {
      forall i | 0 <= i < |s| - 1 ensures s[i] == '\0' ==> !Octal(s[i + 1]) {
        if i > 0 { assert t[i - 1] == s[i] && t[i] == s[i + 1]; }
      }
    }
  }

  /** The reader gets the value back exactly when no NUL of it stands directly before a digit
      from 0 to 7. */
  lemma CStringExact(s: string, rest: string)
    ensures ReadCString(Escaped(Mi, s) + ['"'] + rest) == Some((s, rest)) <==> NulsApart(s)
  {
    CStringStops(s, rest);
    ReceivedExact(s);
  }

  /** NUL and a digit are read as one character. */
  lemma NulAndDigit()
    ensures Escaped(Mi, ['\0', '1']) == ['\\', '0', '1'] && Received(['\0', '1']) == ['\U{0001}']
    ensures ReadCString(Escaped(Mi, ['\0', '1']) + ['"'] + []) == Some((['\U{0001}'], ""))
  {
    NulText(['1'], []);
    assert ['\0'] + (['1'] + []) == ['\0', '1'];
    var s := ['\0', '1'];
    OctalRunIs(['1'], [], 2);
    assert s[1..] == ['1'] + [] && s[1..2] == ['1'] && s[2..] == [];
    assert ['1'][..0] == [] && OctalValue(['1']) == 1;
    CStringStops(s, []);
  }

  /** Nothing that is escaped stays raw: only quotes and backslashes occur. */
  lemma {:induction false} NoRawControls(s: string)
    ensures forall i | 0 <= i < |Escaped(Mi, s)| ::
              Escaped(Mi, s)[i] !in {'\0', '\U{0007}', '\U{0008}', '\U{000C}', '\n', '\r', '\t', '\U{000B}'}
  {
    if s != [] { NoRawControls(s[1..]); }
  }

  /** Quotes in the text are always behind a backslash that is not itself escaped: the only
      unescaped quote a reader can meet is the closing one. */
  ghost predicate Guarded(s: string) {
    s == [] || (s[0] == '\\' && |s| > 1 && Guarded(s[2..])) || (s[0] != '\\' && s[0] != '"' && Guarded(s[1..]))
  }

  lemma {:induction false} EscapedGuarded(table: Table, s: string)
    ensures Guarded(Escaped(table, s))
  {
    if s != [] {
      EscapedGuarded(table, s[1..]);
      var head, tail := EscapedChar(table, s[0]), Escaped(table, s[1..]);
      assert (head + tail)[|head|..] == tail;
    }
  }
}
