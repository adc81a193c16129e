/** The table automaton of utf8_validator.hpp, byte by byte and chunk by chunk. */
module Utf8Validator {
  import opened Bytes
  import opened Encodings

  const ACCEPT: nat := 0
  const REJECT: nat := 1

  /** The first 256 entries of utf8d: the class of a byte. */
  function ByteClass(c: byte): (t: nat)
    ensures t < 12
  {
    if c < 0x80 then 0
    else if c < 0x90 then 1
    else if c < 0xA0 then 9
    else if c < 0xC0 then 7
    else if c < 0xC2 then 8
    else if c < 0xE0 then 2
    else if c == 0xE0 then 0xa
    else if c == 0xED then 4
    else if c < 0xF0 then 3
    else if c == 0xF0 then 0xb
    else if c < 0xF4 then 6
    else if c == 0xF4 then 5
    else 8
  }

  /** The rest of utf8d, one row of sixteen entries for each state. */
  const TRANSITIONS: seq<seq<nat>> := [
    [0x0, 0x1, 0x2, 0x3, 0x5, 0x8, 0x7, 0x1, 0x1, 0x1, 0x4, 0x6, 0x1, 0x1, 0x1, 0x1],
    [1, 1, 1, 1, 1, 1, 1, 1, 1, 1, 1, 1, 1, 1, 1, 1],
    [1, 0, 1, 1, 1, 1, 1, 0, 1, 0, 1, 1, 1, 1, 1, 1],
    [1, 2, 1, 1, 1, 1, 1, 2, 1, 2, 1, 1, 1, 1, 1, 1],
    [1, 1, 1, 1, 1, 1, 1, 2, 1, 1, 1, 1, 1, 1, 1, 1],
    [1, 2, 1, 1, 1, 1, 1, 1, 1, 2, 1, 1, 1, 1, 1, 1],
    [1, 1, 1, 1, 1, 1, 1, 3, 1, 3, 1, 1, 1, 1, 1, 1],
    [1, 3, 1, 1, 1, 1, 1, 3, 1, 3, 1, 1, 1, 1, 1, 1],
    [1, 3, 1, 1, 1, 1, 1, 1, 1, 1, 1, 1, 1, 1, 1, 1]]

  type state = q: nat | q < 9

  function Next(q: state, c: byte): (r: state) {
    TransitionsInRange(q, ByteClass(c));
    TRANSITIONS[q][ByteClass(c)]
  }

  lemma TransitionsInRange(q: state, t: nat)
    requires t < 16
    ensures |TRANSITIONS| == 9 && |TRANSITIONS[q]| == 16 && TRANSITIONS[q][t] < 9
  {
  }

  /** The code point register after one byte: the low 32 bits of what `decode` computes. */
  function NextCodePoint(q: state, cp: nat, c: byte): nat {
    if q != ACCEPT then c % 0x40 + cp * 0x40 % TWO_TO_THE_32
    else match ByteClass(c)
      case 0 => c
      case 1 => c % 0x80
      case 2 => c % 0x40
      case 3 => c % 0x20
      case 4 => c % 0x10
      case 5 => c % 8
      case 6 => c % 4
      case 7 => c % 2
      case _ => 0
  }

  function Run(q: state, s: bytes): state
    decreases |s|
  {
    if s == [] then q else Run(Next(q, s[0]), s[1..])
  }

  /** What each state still waits for, as a set of byte strings given by ranges. */
  lemma Steps(c: byte)
    ensures Next(ACCEPT, c) ==
            if c < 0x80 then ACCEPT
            else if 0xC2 <= c <= 0xDF then 2
            else if c == 0xE0 then 4
            else if c == 0xED then 5
            else if 0xE1 <= c <= 0xEF then 3
            else if c == 0xF0 then 6
            else if 0xF1 <= c <= 0xF3 then 7
            else if c == 0xF4 then 8
            else REJECT
    ensures Next(REJECT, c) == REJECT
    ensures Next(2, c) == if Tail(c) then ACCEPT else REJECT
    ensures Next(3, c) == if Tail(c) then 2 else REJECT
    ensures Next(4, c) == if 0xA0 <= c <= 0xBF then 2 else REJECT
    ensures Next(5, c) == if 0x80 <= c <= 0x9F then 2 else REJECT
    ensures Next(6, c) == if 0x90 <= c <= 0xBF then 3 else REJECT
    ensures Next(7, c) == if Tail(c) then 3 else REJECT
    ensures Next(8, c) == if 0x80 <= c <= 0x8F then 3 else REJECT
  {
  }

  lemma {:induction false} RunConcat(q: state, a: bytes, b: bytes)
    ensures Run(q, a + b) == Run(Run(q, a), b)
    decreases |a|
  {
    if a == [] {
      assert a + b == b;
    } else {
      assert (a + b)[1..] == a[1..] + b;
      RunConcat(Next(q, a[0]), a[1..], b);
    }
  }

  /** Reject is absorbing. */
  lemma {:induction false} RejectAbsorbs(s: bytes)
    ensures Run(REJECT, s) == REJECT
  {
    if s != [] {
      Steps(s[0]);
      RejectAbsorbs(s[1..]);
    }
  }

  /** From accept, one UTF8-char leads back to accept. */
  lemma AcceptChar(s: bytes)
    requires CharLength(s) > 0
    ensures Run(ACCEPT, s) == Run(ACCEPT, s[CharLength(s)..])
  {
    var n := CharLength(s);
    Steps(s[0]);
    var q := Next(ACCEPT, s[0]);
    if n >= 2 {
      RunStep(q, s, 1);
      Steps(s[1]);
      q := Next(q, s[1]);
    }
    if n >= 3 {
      RunStep(q, s, 2);
      Steps(s[2]);
      q := Next(q, s[2]);
    }
    if n >= 4 {
      RunStep(q, s, 3);
      Steps(s[3]);
    }
  }

  lemma RunStep(q: state, s: bytes, i: nat)
    requires i < |s|
    ensures Run(q, s[i..]) == Run(Next(q, s[i]), s[i + 1..])
  {
    assert s[i..][0] == s[i] && s[i..][1..] == s[i + 1..];
  }

  /** From accept, a text that starts with no UTF8-char never comes back to accept. */
  lemma RefuseNonChar(s: bytes)
    requires s != [] && CharLength(s) == 0
    ensures Run(ACCEPT, s) != ACCEPT
  {
    Steps(s[0]);
    RejectAbsorbs(s[1..]);
    var q := Next(ACCEPT, s[0]);
    if |s| > 1 && q != REJECT {
      RunStep(q, s, 1);
      Steps(s[1]);
      RejectAbsorbs(s[2..]);
      q := Next(q, s[1]);
      if |s| > 2 && q != REJECT {
        RunStep(q, s, 2);
        Steps(s[2]);
        RejectAbsorbs(s[3..]);
        q := Next(q, s[2]);
        if |s| > 3 && q != REJECT {
          RunStep(q, s, 3);
          Steps(s[3]);
          RejectAbsorbs(s[4..]);
        }
      }
    }
  }

  /** The automaton ends in accept exactly on the texts of the grammar. */
  lemma {:induction false} AutomatonIsGrammar(s: bytes)
    ensures Run(ACCEPT, s) == ACCEPT <==> WellFormed8(s)
    decreases |s|
  {
    if s != [] {
      if CharLength(s) > 0 {
        AcceptChar(s);
        AutomatonIsGrammar(s[CharLength(s)..]);
      } else {
        RefuseNonChar(s);
      }
    }
  }

  /** The two validators of the repository accept the same texts. */
  lemma ValidatorsAgree(s: bytes)
    ensures Run(ACCEPT, s) == ACCEPT <==> ValidateAll(s, 0)
  {
    AutomatonIsGrammar(s);
    ValidateAllIsGrammar(s, 0);
    assert s[0..] == s;
  }

  /** The code point register after the bytes of `s`. */
  function RunCodePoint(q: state, cp: nat, s: bytes): nat
    decreases |s|
  {
    if s == [] then cp else RunCodePoint(Next(q, s[0]), NextCodePoint(q, cp, s[0]), s[1..])
  }

  lemma LeadRegister(c: byte, cp: nat)
    requires Tails(c) > 0
    ensures Next(ACCEPT, c) >= 2
    ensures NextCodePoint(ACCEPT, cp, c) == LeadBits(c) < 8 * (if Tails(c) == 1 then 4 else 2)
  {
    LeadByte(c);
    Steps(c);
  }

  lemma TailRegister(q: state, c: byte, cp: nat)
    requires q >= 2 && cp < 0x40000
    ensures NextCodePoint(q, cp, c) == cp * 0x40 + c % 0x40
  {
  }

  /** What is left of a UTF8-char whose `k` more bytes are still to come. */
  lemma Pending(s: bytes)
    requires s != [] && CharLength(s) == |s|
    ensures |s| == 1 + Tails(s[0])
    ensures |s| >= 3 ==> Next(Next(ACCEPT, s[0]), s[1]) >= 2
    ensures |s| >= 4 ==> Next(Next(Next(ACCEPT, s[0]), s[1]), s[2]) >= 2
  {
    LeadByte(s[0]);
    Steps(s[0]);
    if |s| >= 3 { Steps(s[1]); }
    if |s| >= 4 { Steps(s[2]); }
  }

  /** On a UTF8-char the automaton computes the code point that UTF8::Decode computes. */
  lemma CodePointIsDecode(s: bytes, cp: nat)
    requires s != [] && CharLength(s) == |s|
    ensures RunCodePoint(ACCEPT, cp, s) == Decode8(s, 0).cp
  {
    Pending(s);
    var q, r := Next(ACCEPT, s[0]), NextCodePoint(ACCEPT, cp, s[0]);
    if |s| >= 2 {
      LeadRegister(s[0], cp);
      CodePointStep(q, r, s, 1);
      TailRegister(q, s[1], r);
      q, r := Next(q, s[1]), NextCodePoint(q, r, s[1]);
    }
    if |s| >= 3 {
      CodePointStep(q, r, s, 2);
      TailRegister(q, s[2], r);
      q, r := Next(q, s[2]), NextCodePoint(q, r, s[2]);
    }
    if |s| >= 4 {
      CodePointStep(q, r, s, 3);
      TailRegister(q, s[3], r);
      q, r := Next(q, s[3]), NextCodePoint(q, r, s[3]);
    }
    assert s[|s|..] == [];
    assert RunCodePoint(q, r, []) == r;
  }

  lemma CodePointStep(q: state, cp: nat, s: bytes, i: nat)
    requires i < |s|
    ensures RunCodePoint(q, cp, s[i..]) == RunCodePoint(Next(q, s[i]), NextCodePoint(q, cp, s[i]), s[i + 1..])
  {
    assert s[i..][0] == s[i] && s[i..][1..] == s[i + 1..];
  }

  class Validator {
    var current: state
    var codePoint: nat

    constructor ()
      ensures current == ACCEPT && codePoint == 0
    {
      current, codePoint := 0, 0;
    }

    method Consume(c: byte) returns (ok: bool)
      modifies this
      ensures current == Run(old(current), [c])
      ensures codePoint == RunCodePoint(old(current), old(codePoint), [c])
      ensures ok <==> current != REJECT
    {
      codePoint := NextCodePoint(current, codePoint, c);
      current := Next(current, c);
      ok := current != REJECT;
    }

    /** Stops at the first rejected byte: the state is then what the whole chunk would have given. */
    method Decode(chunk: bytes) returns (ok: bool)
      modifies this
      ensures current == Run(old(current), chunk)
      ensures ok <==> chunk == [] || current != REJECT
      ensures ok ==> codePoint == RunCodePoint(old(current), old(codePoint), chunk)
    {
      var i := 0;
      while i < |chunk|
        invariant i <= |chunk|
        invariant Run(current, chunk[i..]) == Run(old(current), chunk)
        invariant RunCodePoint(current, codePoint, chunk[i..]) == RunCodePoint(old(current), old(codePoint), chunk)
        invariant i > 0 ==> current != REJECT
      {
        assert chunk[i..][0] == chunk[i] && chunk[i..][1..] == chunk[i + 1..];
        codePoint := NextCodePoint(current, codePoint, chunk[i]);
        current := Next(current, chunk[i]);
        if current == REJECT {
          RejectAbsorbs(chunk[i + 1..]);
          return false;
        }
        i := i + 1;
      }
      ok := true;
    }

    method Complete() returns (ok: bool)
      ensures ok <==> current == ACCEPT
    {
      ok := current == ACCEPT;
    }

    method Reset()
      modifies this
      ensures current == ACCEPT && codePoint == 0
    {
      current, codePoint := 0, 0;
    }
  }

  lemma {:induction false} ConcatSnoc(chunks: seq<bytes>, c: bytes)
    ensures Concat(chunks + [c]) == Concat(chunks) + c
  {
    if chunks == [] {
      assert chunks + [c] == [c];
      assert [c][1..] == [];
      assert Concat([c]) == c + Concat([]) == c;
    } else {
      assert (chunks + [c])[1..] == chunks[1..] + [c];
      ConcatSnoc(chunks[1..], c);
    }
  }

  /** However a text is cut into chunks, the validator ends complete exactly when it is well-formed. */
  method ValidateChunks(chunks: seq<bytes>) returns (ok: bool)
    ensures ok <==> WellFormed8(Concat(chunks))
  {
    var v := new Validator();
    var i := 0;
    while i < |chunks|
      invariant i <= |chunks|
      invariant v.current == Run(ACCEPT, Concat(chunks[..i]))
    {
      assert chunks[..i + 1] == chunks[..i] + [chunks[i]];
      ConcatSnoc(chunks[..i], chunks[i]);
      RunConcat(ACCEPT, Concat(chunks[..i]), chunks[i]);
      var _ := v.Decode(chunks[i]);
      i := i + 1;
    }
    assert chunks[..i] == chunks;
    ok := v.Complete();
    AutomatonIsGrammar(Concat(chunks));
  }

  /** The convenience function over a whole text. */
  method Validate(s: bytes) returns (ok: bool)
    ensures ok <==> WellFormed8(s)
  {
    AutomatonIsGrammar(s);
    var v := new Validator();
    var fine := v.Decode(s);
    if !fine {
      return false;
    }
    ok := v.Complete();
  }
}
