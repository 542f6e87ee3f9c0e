/** Little-endian integers in byte sequences, as the PDB reader interprets them. */
module Bytes {
  import opened Options

  type byte = b: int | 0 <= b < 256

  const INT32_LIMIT := 0x8000_0000
  const UINT32_LIMIT := 0x1_0000_0000

  predicate IsInt32(n: int) {
    -INT32_LIMIT <= n < INT32_LIMIT
  }

  /** How many numbers `n` bytes can hold. */
  function Limit(n: nat): (r: nat)
    ensures r > 0
  {
    if n == 0 then 1 else 0x100 * Limit(n - 1)
  }

  lemma Limits()
    ensures Limit(2) == 0x1_0000 && Limit(4) == UINT32_LIMIT
  {
    assert Limit(1) == 0x100 && Limit(2) == 0x1_0000 && Limit(3) == 0x100_0000;
  }

  /** The number in `n` bytes, lowest first. */
  function Number(bs: seq<byte>, off: nat, n: nat): (r: nat)
    requires off + n <= |bs|
    ensures r < Limit(n)
    decreases n
  {
    if n == 0 then 0 else bs[off] + 0x100 * (Number(bs, off + 1, n - 1) as int)
  }

  function Put(v: nat, n: nat): (r: seq<byte>)
    ensures |r| == n
  {
    if n == 0 then [] else [v % 0x100] + Put(v / 0x100, n - 1)
  }

  /** The text stands in the bytes at the offset. */
  ghost predicate At(bs: seq<byte>, off: nat, text: seq<byte>) {
    off + |text| <= |bs| && forall k | 0 <= k < |text| :: bs[off + k] == text[k]
  }

  lemma AtConcat(bs: seq<byte>, off: nat, a: seq<byte>, b: seq<byte>)
    requires At(bs, off, a + b)
    ensures At(bs, off, a) && At(bs, off + |a|, b)
  {
    forall k | 0 <= k < |a| ensures bs[off + k] == a[k] { assert (a + b)[k] == a[k]; }
    forall k | 0 <= k < |b| ensures bs[off + |a| + k] == b[k] { assert (a + b)[|a| + k] == b[k]; }
  }

  lemma {:induction false} NumberRoundTrip(v: nat, n: nat, bs: seq<byte>, off: nat)
    requires v < Limit(n) && At(bs, off, Put(v, n))
    ensures Number(bs, off, n) == v
    decreases n
  {
    if n > 0 {
      AtConcat(bs, off, [v % 0x100], Put(v / 0x100, n - 1));
      assert [v % 0x100][0] == bs[off];
      NumberRoundTrip(v / 0x100, n - 1, bs, off + 1);
    }
  }

  function U16(bs: seq<byte>, off: nat): nat
    requires off + 2 <= |bs|
  {
    Number(bs, off, 2)
  }

  function U32(bs: seq<byte>, off: nat): nat
    requires off + 4 <= |bs|
  {
    Number(bs, off, 4)
  }

  /** The same four bytes as a signed number. */
  function I32(bs: seq<byte>, off: nat): int
    requires off + 4 <= |bs|
  {
    Signed(U32(bs, off))
  }

  function Signed(u: nat): int {
    if u >= INT32_LIMIT then u - UINT32_LIMIT else u
  }

  /** The result of 32-bit arithmetic that may overflow. */
  function Wrap32(n: int): (r: int)
    ensures IsInt32(r) && (IsInt32(n) ==> r == n)
  {
    Signed(n % UINT32_LIMIT)
  }

  function Put16(n: nat): seq<byte>
  {
    Put(n, 2)
  }

  /** Two's complement. */
  function Put32(n: int): (r: seq<byte>)
    ensures |r| == 4
  {
    Put(n % UINT32_LIMIT, 4)
  }

  lemma U16RoundTrip(n: nat, bs: seq<byte>, off: nat)
    requires n < 0x1_0000 && At(bs, off, Put16(n))
    ensures U16(bs, off) == n
  {
    Limits();
    NumberRoundTrip(n, 2, bs, off);
  }

  lemma U32RoundTrip(n: nat, bs: seq<byte>, off: nat)
    requires n < UINT32_LIMIT && At(bs, off, Put32(n))
    ensures U32(bs, off) == n
  {
    assert n % UINT32_LIMIT == n;
    Limits();
    NumberRoundTrip(n, 4, bs, off);
  }

  lemma I32RoundTrip(n: int, bs: seq<byte>, off: nat)
    requires IsInt32(n) && At(bs, off, Put32(n))
    ensures I32(bs, off) == n
  {
    Limits();
    NumberRoundTrip(n % UINT32_LIMIT, 4, bs, off);
  }

  /** A read that fails outside the bytes, as indexing does. */
  function ReadI32(bs: seq<byte>, off: int): Option<int> {
    if 0 <= off && off + 4 <= |bs| then Some(I32(bs, off)) else None
  }

  // ---------------------------------------------------------------- lists of integers

  predicate AllInt32(xs: seq<int>) {
    forall i | 0 <= i < |xs| :: IsInt32(xs[i])
  }

  function PutInts(xs: seq<int>): (r: seq<byte>)
    ensures |r| == 4 * |xs|
  {
    if xs == [] then [] else PutInts(xs[..|xs| - 1]) + Put32(xs[|xs| - 1])
  }

  /** `n` integers from `off` on. */
  function Ints(bs: seq<byte>, off: nat, n: nat): (r: seq<int>)
    requires off + 4 * n <= |bs|
    ensures |r| == n
  {
    if n == 0 then [] else Ints(bs, off, n - 1) + [I32(bs, off + 4 * (n - 1))]
  }

  lemma {:induction false} IntsAre(bs: seq<byte>, off: nat, n: nat, i: nat)
    requires off + 4 * n <= |bs| && i < n
    ensures Ints(bs, off, n)[i] == I32(bs, off + 4 * i)
  {
    if i < n - 1 { IntsAre(bs, off, n - 1, i); }
  }

  lemma {:induction false} IntsRoundTrip(xs: seq<int>, bs: seq<byte>, off: nat)
    requires AllInt32(xs) && At(bs, off, PutInts(xs))
    ensures Ints(bs, off, |xs|) == xs
  {
    if xs != [] {
      var n := |xs| - 1;
      AtConcat(bs, off, PutInts(xs[..n]), Put32(xs[n]));
      IntsRoundTrip(xs[..n], bs, off);
      I32RoundTrip(xs[n], bs, off + 4 * n);
    }
  }

  /** The same bytes as unsigned numbers. */
  lemma {:induction false} WordAt(xs: seq<int>, bs: seq<byte>, off: nat, i: nat)
    requires At(bs, off, PutInts(xs)) && i < |xs| && 0 <= xs[i] < UINT32_LIMIT
    ensures U32(bs, off + 4 * i) == xs[i]
  {
    var n := |xs| - 1;
    AtConcat(bs, off, PutInts(xs[..n]), Put32(xs[n]));
    if i == n { U32RoundTrip(xs[n], bs, off + 4 * n); } else { WordAt(xs[..n], bs, off, i); }
  }

  /** Two texts in a row, the second at an offset given as a number. */
  lemma AtParts(bs: seq<byte>, i: nat, a: seq<byte>, b: seq<byte>, j: nat)
    requires At(bs, i, a + b) && j == i + |a|
    ensures At(bs, i, a) && At(bs, j, b)
  {
    AtConcat(bs, i, a, b);
  }
}
