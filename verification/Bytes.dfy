/** Bytes, zero-terminated reading, and decimal text. */
module Bytes {
  type byte = b: int | 0 <= b < 256
  type bytes = seq<byte>

  datatype Option<+T> = None | Some(value: T)

  const TWO_TO_THE_31 := 0x8000_0000
  const TWO_TO_THE_32 := 0x1_0000_0000
  const TWO_TO_THE_63 := 0x8000_0000_0000_0000
  const TWO_TO_THE_64 := 0x1_0000_0000_0000_0000

  /** The byte a stream shows at a position; everything from the end of the text on reads as NUL. */
  function Peek(s: bytes, p: nat): byte {
    if p < |s| then s[p] else 0
  }

  /** The bytes of the text that are still unread: the measure that every parser decreases. */
  function Left(s: bytes, p: nat): nat {
    if p < |s| then |s| - p else 0
  }

  /** The bytes that a stream shows from p to q. */
  function CopyRange(s: bytes, p: nat, q: nat): bytes
    requires p <= q
  {
    seq<byte>(q - p, i requires 0 <= i => Peek(s, p + i))
  }

  lemma CopyRangeInside(s: bytes, p: nat, q: nat)
    requires p <= q <= |s|
    ensures CopyRange(s, p, q) == s[p..q]
  {
    var t := CopyRange(s, p, q);
    assert forall i :: 0 <= i < |t| ==> t[i] == Peek(s, p + i);
  }

  /** Does `t` stand in `s` at position `p`? */
  predicate At(s: bytes, p: nat, t: bytes) {
    p + |t| <= |s| && s[p..p + |t|] == t
  }

  lemma AtSplit(s: bytes, p: nat, a: bytes, b: bytes)
    requires At(s, p, a + b)
    ensures At(s, p, a)
    ensures At(s, p + |a|, b)
  {
    var w := s[p..p + |a + b|];
    assert w[..|a|] == a && w[|a|..] == b;
    assert s[p..p + |a|] == w[..|a|];
    assert s[p + |a|..p + |a| + |b|] == w[|a|..];
  }

  lemma AtIndex(s: bytes, p: nat, t: bytes, i: nat)
    requires At(s, p, t) && i < |t|
    ensures Peek(s, p + i) == t[i]
  {
    assert s[p..p + |t|][i] == s[p + i];
  }

  lemma Assoc<T>(a: seq<T>, b: seq<T>, c: seq<T>)
    ensures a + b + c == a + (b + c)
  {
  }

  /** A text that comes in chunks. */
  function Concat(chunks: seq<bytes>): bytes {
    if chunks == [] then [] else chunks[0] + Concat(chunks[1..])
  }

  // Decimal text

  predicate IsDigit(c: byte) {
    0x30 <= c <= 0x39
  }

  predicate AllDigits(t: bytes) {
    forall i :: 0 <= i < |t| ==> IsDigit(t[i])
  }

  /** The end of the run of digits that starts at `p`. */
  function DigitsEnd(s: bytes, p: nat): (q: nat)
    ensures q >= p
    ensures p <= |s| ==> q <= |s| && AllDigits(s[p..q])
    ensures !IsDigit(Peek(s, q))
    decreases Left(s, p)
  {
    if IsDigit(Peek(s, p)) then
      var q := DigitsEnd(s, p + 1);
      assert s[p..q] == [s[p]] + s[p + 1..q];
      q
    else p
  }

  /** The number that a string of digits denotes. */
  function Value(t: bytes): nat
    requires AllDigits(t)
  {
    if t == [] then 0 else Value(t[..|t| - 1]) * 10 + (t[|t| - 1] - 0x30)
  }

  /** The shortest decimal text of a natural number, as itoa and operator<< print it. */
  function Decimal(n: nat): (t: bytes)
    ensures t != [] && AllDigits(t)
    ensures t[0] == 0x30 <==> n == 0
  {
    if n < 10 then [0x30 + n] else Decimal(n / 10) + [0x30 + n % 10]
  }

  lemma {:induction false} ValueOfDecimal(n: nat)
    ensures Value(Decimal(n)) == n
  {
    if n < 10 {
      assert Decimal(n)[..0] == [];
    } else {
      ValueOfDecimal(n / 10);
      assert Decimal(n)[..|Decimal(n)| - 1] == Decimal(n / 10);
    }
  }

  /** A run of digits followed by something that is not one ends exactly there. */
  lemma {:induction false} DigitsEndIs(s: bytes, p: nat, t: bytes)
    requires At(s, p, t) && AllDigits(t)
    requires !IsDigit(Peek(s, p + |t|))
    ensures DigitsEnd(s, p) == p + |t|
    decreases |t|
  {
    if t != [] {
      AtIndex(s, p, t, 0);
      assert t == t[..1] + t[1..];
      AtSplit(s, p, t[..1], t[1..]);
      DigitsEndIs(s, p + 1, t[1..]);
    }
  }

  lemma {:induction false} ValueMonotone(t: bytes, k: nat)
    requires AllDigits(t) && k <= |t|
    ensures Value(t[..k]) <= Value(t)
    decreases |t|
  {
    if k == |t| {
      assert t[..k] == t;
    } else {
      assert t[..|t| - 1][..k] == t[..k];
      ValueMonotone(t[..|t| - 1], k);
    }
  }
}
