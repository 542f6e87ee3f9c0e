module Options {
  datatype Option<+T> = None | Some(value: T) {
    predicate IsFailure() {
      None?
    }

    function PropagateFailure<U>(): Option<U>
      requires None?
    {
      None
    }

    function Extract(): T
      requires Some?
    {
      value
    }
  }
}

/** Decimal numerals and small facts about strings that several components share. */
module Text {

  function DigitChar(d: nat): char
    requires d < 10
  {
    "0123456789"[d]
  }

  /** The last character of a text that ends with a part that is not empty. */
  lemma LastOf(a: string, b: string)
    requires b != []
    ensures (a + b)[..|a + b| - 1] == a + b[..|b| - 1] && (a + b)[|a + b| - 1] == b[|b| - 1]
  {
  }

  predicate Without(s: string, chars: set<char>) {
    forall i | 0 <= i < |s| :: s[i] !in chars
  }

  predicate IsDigit(c: char) {
    '0' <= c <= '9'
  }

  function DigitValue(c: char): nat
    requires IsDigit(c)
  {
    c as int - '0' as int
  }

  /** The decimal numeral of `n`, as std::to_string writes it. */
  function Decimal(n: nat): (s: string)
    ensures s != [] && forall i | 0 <= i < |s| :: IsDigit(s[i])
  {
    if n < 10 then [DigitChar(n)] else Decimal(n / 10) + [DigitChar(n % 10)]
  }

  /** The index of the first `c` in `s`, or |s| when there is none. */
  function Find(s: string, c: char): (k: nat)
    ensures k <= |s| && (forall i | 0 <= i < k :: s[i] != c) && (k < |s| ==> s[k] == c)
  {
    if s == [] then 0
    else if s[0] == c then 0
    else 1 + Find(s[1..], c)
  }
}
