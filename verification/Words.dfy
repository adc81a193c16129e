/** Machine words, their bytes, and the order of the bytes in memory. */
module Words {
  type uint8 = bv8

  /** sizeof(size_t), and whether the least significant byte comes first. */
  datatype AnyMachine = Machine(word: nat, little: bool)
  type Machine = m: AnyMachine | m.word == 4 || m.word == 8 witness Machine(8, true)

  /** A masking key: the four bytes of the union. */
  type Key = k: seq<uint8> | |k| == 4 witness [0, 0, 0, 0]

  // The operators on bytes and words, by name: most proofs do not look at bits.

  function Xor8(a: uint8, b: uint8): uint8 { a ^ b }

  function Or8(a: uint8, b: uint8): uint8 { a | b }

  function Xor(a: bv64, b: bv64): bv64 { a ^ b }

  function Or(a: bv64, b: bv64): bv64 { a | b }

  /** `w` as a uint32 */
  function Low32(w: bv64): bv64 { w & 0xFFFF_FFFF }

  /** `w >> 8 * k` and `w << 8 * k` */
  function Shr(w: bv64, k: nat): bv64
    requires k < 8
  {
    match k
    case 0 => w case 1 => w >> 8 case 2 => w >> 16 case 3 => w >> 24
    case 4 => w >> 32 case 5 => w >> 40 case 6 => w >> 48 case 7 => w >> 56
  }

  function Shl(w: bv64, k: nat): bv64
    requires k < 8
  {
    match k
    case 0 => w case 1 => w << 8 case 2 => w << 16 case 3 => w << 24
    case 4 => w << 32 case 5 => w << 40 case 6 => w << 48 case 7 => w << 56
  }

  lemma Xor8Twice(a: uint8, b: uint8)
    ensures Xor8(Xor8(a, b), b) == a
  {
  }

  lemma Or8Zero(b: uint8)
    ensures Or8(b, 0) == b && Or8(0, b) == b
  {
  }

  // Lanes: the bytes of a word by significance. A size_t of four bytes is a bv64 with an empty upper half.

  function Lane(w: bv64, k: nat): uint8
    requires k < 8
  {
    match k
    case 0 => (w & 0xFF) as uint8
    case 1 => ((w >> 8) & 0xFF) as uint8
    case 2 => ((w >> 16) & 0xFF) as uint8
    case 3 => ((w >> 24) & 0xFF) as uint8
    case 4 => ((w >> 32) & 0xFF) as uint8
    case 5 => ((w >> 40) & 0xFF) as uint8
    case 6 => ((w >> 48) & 0xFF) as uint8
    case 7 => ((w >> 56) & 0xFF) as uint8
  }

  lemma XorBits(a: bv64, b: bv64)
    ensures Lane(a ^ b, 0) == Lane(a, 0) ^ Lane(b, 0)
    ensures Lane(a ^ b, 1) == Lane(a, 1) ^ Lane(b, 1)
    ensures Lane(a ^ b, 2) == Lane(a, 2) ^ Lane(b, 2)
    ensures Lane(a ^ b, 3) == Lane(a, 3) ^ Lane(b, 3)
    ensures Lane(a ^ b, 4) == Lane(a, 4) ^ Lane(b, 4)
    ensures Lane(a ^ b, 5) == Lane(a, 5) ^ Lane(b, 5)
    ensures Lane(a ^ b, 6) == Lane(a, 6) ^ Lane(b, 6)
    ensures Lane(a ^ b, 7) == Lane(a, 7) ^ Lane(b, 7)
  {
  }

  lemma OrBits(a: bv64, b: bv64)
    ensures Lane(a | b, 0) == Lane(a, 0) | Lane(b, 0)
    ensures Lane(a | b, 1) == Lane(a, 1) | Lane(b, 1)
    ensures Lane(a | b, 2) == Lane(a, 2) | Lane(b, 2)
    ensures Lane(a | b, 3) == Lane(a, 3) | Lane(b, 3)
    ensures Lane(a | b, 4) == Lane(a, 4) | Lane(b, 4)
    ensures Lane(a | b, 5) == Lane(a, 5) | Lane(b, 5)
    ensures Lane(a | b, 6) == Lane(a, 6) | Lane(b, 6)
    ensures Lane(a | b, 7) == Lane(a, 7) | Lane(b, 7)
  {
  }

  lemma LaneXorAll(a: bv64, b: bv64)
    ensures Lane(Xor(a, b), 0) == Xor8(Lane(a, 0), Lane(b, 0))
    ensures Lane(Xor(a, b), 1) == Xor8(Lane(a, 1), Lane(b, 1))
    ensures Lane(Xor(a, b), 2) == Xor8(Lane(a, 2), Lane(b, 2))
    ensures Lane(Xor(a, b), 3) == Xor8(Lane(a, 3), Lane(b, 3))
    ensures Lane(Xor(a, b), 4) == Xor8(Lane(a, 4), Lane(b, 4))
    ensures Lane(Xor(a, b), 5) == Xor8(Lane(a, 5), Lane(b, 5))
    ensures Lane(Xor(a, b), 6) == Xor8(Lane(a, 6), Lane(b, 6))
    ensures Lane(Xor(a, b), 7) == Xor8(Lane(a, 7), Lane(b, 7))
  {
    hide Lane;
    XorBits(a, b);
  }

  lemma LaneXor(a: bv64, b: bv64, k: nat)
    requires k < 8
    ensures Lane(Xor(a, b), k) == Xor8(Lane(a, k), Lane(b, k))
  {
    hide Lane, Xor, Xor8;
    LaneXorAll(a, b);
    match k
    case 0 => case 1 => case 2 => case 3 => case 4 => case 5 => case 6 => case 7 =>
  }

  lemma LaneOrAll(a: bv64, b: bv64)
    ensures Lane(Or(a, b), 0) == Or8(Lane(a, 0), Lane(b, 0))
    ensures Lane(Or(a, b), 1) == Or8(Lane(a, 1), Lane(b, 1))
    ensures Lane(Or(a, b), 2) == Or8(Lane(a, 2), Lane(b, 2))
    ensures Lane(Or(a, b), 3) == Or8(Lane(a, 3), Lane(b, 3))
    ensures Lane(Or(a, b), 4) == Or8(Lane(a, 4), Lane(b, 4))
    ensures Lane(Or(a, b), 5) == Or8(Lane(a, 5), Lane(b, 5))
    ensures Lane(Or(a, b), 6) == Or8(Lane(a, 6), Lane(b, 6))
    ensures Lane(Or(a, b), 7) == Or8(Lane(a, 7), Lane(b, 7))
  {
    hide Lane;
    OrBits(a, b);
  }

  lemma LaneOr(a: bv64, b: bv64, k: nat)
    requires k < 8
    ensures Lane(Or(a, b), k) == Or8(Lane(a, k), Lane(b, k))
  {
    hide Lane, Or, Or8;
    LaneOrAll(a, b);
    match k
    case 0 => case 1 => case 2 => case 3 => case 4 => case 5 => case 6 => case 7 =>
  }

  lemma LaneLow(w: bv64, k: nat)
    requires k < 8
    ensures Lane(Low32(w), k) == if k < 4 then Lane(w, k) else 0
  {
    match k
    case 0 => case 1 => case 2 => case 3 => case 4 => case 5 => case 6 => case 7 =>
  }

  lemma LaneByte(b: uint8, k: nat)
    requires k < 8
    ensures Lane(b as bv64, k) == if k == 0 then b else 0
  {
    match k
    case 0 => case 1 => case 2 => case 3 => case 4 => case 5 => case 6 => case 7 =>
  }

  lemma LaneZero(k: nat)
    requires k < 8
    ensures Lane(0, k) == 0
  {
  }

  lemma ShiftNone(w: bv64)
    ensures Shr(w, 0) == w && Shl(w, 0) == w
  {
  }

  lemma ShrStep(w: bv64, n: nat)
    requires 0 < n < 8
    ensures Shr(w, n) == Shr(w, n - 1) >> 8
  {
    match n
    case 1 => assert w >> 8 == w >> 8;
    case 2 => assert w >> 16 == (w >> 8) >> 8;
    case 3 => assert w >> 24 == (w >> 16) >> 8;
    case 4 => assert w >> 32 == (w >> 24) >> 8;
    case 5 => assert w >> 40 == (w >> 32) >> 8;
    case 6 => assert w >> 48 == (w >> 40) >> 8;
    case 7 => assert w >> 56 == (w >> 48) >> 8;
  }

  lemma ShlStep(w: bv64, n: nat)
    requires 0 < n < 8
    ensures Shl(w, n) == Shl(w, n - 1) << 8
  {
    match n
    case 1 => assert w << 8 == w << 8;
    case 2 => assert w << 16 == (w << 8) << 8;
    case 3 => assert w << 24 == (w << 16) << 8;
    case 4 => assert w << 32 == (w << 24) << 8;
    case 5 => assert w << 40 == (w << 32) << 8;
    case 6 => assert w << 48 == (w << 40) << 8;
    case 7 => assert w << 56 == (w << 48) << 8;
  }

  lemma LaneDown(w: bv64, k: nat)
    requires k < 8
    ensures Lane(w >> 8, k) == if k < 7 then Lane(w, k + 1) else 0
  {
    match k
    case 0 => case 1 => case 2 => case 3 => case 4 => case 5 => case 6 => case 7 =>
  }

  lemma LaneUp(w: bv64, k: nat)
    requires k < 8
    ensures Lane(w << 8, k) == if k > 0 then Lane(w, k - 1) else 0
  {
    match k
    case 0 => case 1 => case 2 => case 3 => case 4 => case 5 => case 6 => case 7 =>
  }

  /** A shift by n bytes moves the lanes by n. */
  lemma {:induction false} LaneShr(w: bv64, n: nat, k: nat)
    requires n < 8 && k < 8
    ensures Lane(Shr(w, n), k) == if k + n < 8 then Lane(w, k + n) else 0
  {
    hide Lane, Shr;
    if n == 0 {
      ShiftNone(w);
    } else {
      LaneShr(w, n - 1, if k < 7 then k + 1 else 0);
      ShrStep(w, n);
      LaneDown(Shr(w, n - 1), k);
    }
  }

  lemma {:induction false} LaneShl(w: bv64, n: nat, k: nat)
    requires n < 8 && k < 8
    ensures Lane(Shl(w, n), k) == if n <= k then Lane(w, k - n) else 0
  {
    hide Lane, Shl;
    if n == 0 {
      ShiftNone(w);
    } else {
      LaneShl(w, n - 1, if k > 0 then k - 1 else 0);
      ShlStep(w, n);
      LaneUp(Shl(w, n - 1), k);
    }
  }

  lemma LanesEqual(a: bv64, b: bv64)
    requires forall k :: 0 <= k < 8 ==> Lane(a, k) == Lane(b, k)
    ensures a == b
  {
    assert Lane(a, 0) == Lane(b, 0) && Lane(a, 1) == Lane(b, 1) && Lane(a, 2) == Lane(b, 2) && Lane(a, 3) == Lane(b, 3);
    assert Lane(a, 4) == Lane(b, 4) && Lane(a, 5) == Lane(b, 5) && Lane(a, 6) == Lane(b, 6) && Lane(a, 7) == Lane(b, 7);
  }

  // Words in memory

  function LaneAt(m: Machine, i: nat): (k: nat)
    requires i < m.word
    ensures k < m.word
  {
    if m.little then i else m.word - 1 - i
  }

  /** The byte at position i of the word in memory. */
  function ByteAt(m: Machine, w: bv64, i: nat): uint8
    requires i < m.word
  {
    Lane(w, LaneAt(m, i))
  }

  /** The word whose first bytes in memory are `b`. */
  function WordUpTo(m: Machine, b: seq<uint8>): bv64
    requires |b| <= m.word
  {
    if b == [] then 0
    else Or(WordUpTo(m, b[..|b| - 1]), Shl(b[|b| - 1] as bv64, LaneAt(m, |b| - 1)))
  }

  /** The word whose bytes in memory are `b`. */
  function WordOf(m: Machine, b: seq<uint8>): bv64
    requires |b| == m.word
  {
    WordUpTo(m, b)
  }

  lemma {:induction false} WordUpToLane(m: Machine, b: seq<uint8>, k: nat)
    requires |b| <= m.word && k < 8
    ensures Lane(WordUpTo(m, b), k) ==
            if k < m.word && LaneAt(m, k) < |b| then b[LaneAt(m, k)] else 0
    decreases |b|
  {
    hide Lane, Shl, Or, Or8;
    if b == [] {
      LaneZero(k);
    } else {
      var last, at := b[|b| - 1], LaneAt(m, |b| - 1);
      WordUpToLane(m, b[..|b| - 1], k);
      PlacedByte(last, at, k);
      LaneOr(WordUpTo(m, b[..|b| - 1]), Shl(last as bv64, at), k);
      Or8Zero(last);
      Or8Zero(Lane(WordUpTo(m, b[..|b| - 1]), k));
    }
  }

  lemma PlacedByte(b: uint8, n: nat, k: nat)
    requires n < 8 && k < 8
    ensures Lane(Shl(b as bv64, n), k) == if k == n then b else 0
  {
    hide Lane, Shl;
    LaneShl(b as bv64, n, k);
    LaneByte(b, if n <= k then k - n else 0);
  }

  /** Writing a word to memory undoes reading it. */
  lemma WordOfBytes(m: Machine, b: seq<uint8>, i: nat)
    requires |b| == m.word && i < m.word
    ensures ByteAt(m, WordOf(m, b), i) == b[i]
  {
    hide Lane, WordUpTo;
    WordUpToLane(m, b, LaneAt(m, i));
  }

  /** The bytes of a word in memory. */
  function BytesOf(m: Machine, w: bv64): (r: seq<uint8>)
    ensures |r| == m.word
  {
    seq(m.word, i requires 0 <= i < m.word => ByteAt(m, w, i))
  }

  lemma XorByte(m: Machine, a: bv64, b: bv64, i: nat)
    requires i < m.word
    ensures ByteAt(m, Xor(a, b), i) == Xor8(ByteAt(m, a, i), ByteAt(m, b, i))
  {
    hide Lane, Xor, Xor8;
    LaneXor(a, b, LaneAt(m, i));
  }

  /** What a word of that size can hold. */
  predicate Fits(m: Machine, w: bv64) {
    forall k :: m.word <= k < 8 ==> Lane(w, k) == 0
  }

  lemma WordOfFits(m: Machine, b: seq<uint8>)
    requires |b| == m.word
    ensures Fits(m, WordOf(m, b))
  {
    hide Lane, WordUpTo;
    forall k | m.word <= k < 8 ensures Lane(WordOf(m, b), k) == 0 {
      WordUpToLane(m, b, k);
    }
  }
}
