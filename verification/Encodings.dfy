/**
 * The encodings of encodings.h: UTF8 (section 4 of RFC 3629), UTF16 (section 2 of RFC 2781) and
 * the Transcoder. Shifts and masks are written as divisions and remainders.
 */
module Encodings {
  import opened Bytes

  type unit16 = u: int | 0 <= u < 0x10000

  predicate Scalar(cp: nat) {
    cp < 0xD800 || 0xE000 <= cp <= 0x10FFFF
  }

  // UTF8::Encode. Surrogates are not refused: the caller may hand over any value up to 0x10FFFF.
  function Encode8(cp: nat): bytes
    requires cp <= 0x10FFFF
  {
    if cp <= 0x7F then [cp]
    else if cp <= 0x7FF then [0xC0 + cp / 0x40, 0x80 + cp % 0x40]
    else if cp <= 0xFFFF then [0xE0 + cp / 0x1000, 0x80 + cp / 0x40 % 0x40, 0x80 + cp % 0x40]
    else [0xF0 + cp / 0x40000, 0x80 + cp / 0x1000 % 0x40, 0x80 + cp / 0x40 % 0x40, 0x80 + cp % 0x40]
  }

  /** The table of GetRange. */
  function GetRange(c: byte): bv8 {
    if c < 0x80 then 0
    else if c < 0x90 then 0x10
    else if c < 0xA0 then 0x40
    else if c < 0xC0 then 0x20
    else if c < 0xC2 then 8
    else if c < 0xE0 then 2
    else if c == 0xE0 then 10
    else if c == 0xED then 4
    else if c < 0xF0 then 3
    else if c == 0xF0 then 11
    else if c < 0xF4 then 6
    else if c == 0xF4 then 5
    else 8
  }

  /** The payload bits of a lead byte: `(0xFF >> type) & c`. */
  function LeadBits(c: byte): nat {
    var t := GetRange(c);
    if t == 2 then c % 0x40
    else if t == 3 then c % 0x20
    else if t == 4 then c % 0x10
    else if t == 5 then c % 8
    else if t == 6 then c % 4
    else 0
  }

  /** How many bytes follow a lead byte; none after a byte that cannot lead. */
  function Tails(c: byte): nat {
    var t := GetRange(c);
    if t == 2 then 1
    else if t == 3 || t == 4 || t == 10 then 2
    else if t == 5 || t == 6 || t == 11 then 3
    else 0
  }

  /** Which continuation bytes the first tail after a lead byte may take. */
  function FirstMask(c: byte): bv8 {
    var t := GetRange(c);
    if t == 4 then 0x50
    else if t == 5 then 0x10
    else if t == 10 then 0x20
    else if t == 11 then 0x60
    else 0x70
  }

  predicate Trans(c: byte, mask: bv8) {
    GetRange(c) & mask != 0
  }

  datatype Decoded = Decoded(ok: bool, cp: nat, pos: nat)

  /** UTF8::Decode at position `p`; every tail is read, whatever the earlier ones were. */
  function Decode8(s: bytes, p: nat): (d: Decoded)
    ensures d.pos > p
  {
    var c := Peek(s, p);
    if c < 0x80 then Decoded(true, c, p + 1)
    else
      var c1, c2, c3 := Peek(s, p + 1), Peek(s, p + 2), Peek(s, p + 3);
      var cp := LeadBits(c);
      var ok1 := Trans(c1, FirstMask(c));
      if Tails(c) == 1 then Decoded(ok1, cp * 0x40 + c1 % 0x40, p + 2)
      else if Tails(c) == 2 then
        Decoded(ok1 && Trans(c2, 0x70), (cp * 0x40 + c1 % 0x40) * 0x40 + c2 % 0x40, p + 3)
      else if Tails(c) == 3 then
        Decoded(ok1 && Trans(c2, 0x70) && Trans(c3, 0x70),
                ((cp * 0x40 + c1 % 0x40) * 0x40 + c2 % 0x40) * 0x40 + c3 % 0x40, p + 4)
      else Decoded(false, cp, p + 1)
  }

  /** UTF8::Validate at position `p`: the verdict, and the position up to which bytes were copied. */
  function Validate8(s: bytes, p: nat): (d: (bool, nat))
    ensures d.1 > p
  {
    var c := Peek(s, p);
    if c < 0x80 then (true, p + 1)
    else
      var ok1 := Trans(Peek(s, p + 1), FirstMask(c));
      var ok2 := Trans(Peek(s, p + 2), 0x70);
      var ok3 := Trans(Peek(s, p + 3), 0x70);
      match Tails(c)
      case 1 => (ok1, p + 2)
      case 2 => (ok1 && ok2, p + 3)
      case 3 => (ok1 && ok2 && ok3, p + 4)
      case _ => (false, p + 1)
  }

  // The grammar of section 4 of RFC 3629

  predicate Tail(c: byte) { 0x80 <= c <= 0xBF }

  /** The length of the UTF8-char that starts `s`, 0 when none does. */
  function CharLength(s: bytes): (n: nat)
    ensures n <= |s| && n <= 4
  {
    if |s| >= 1 && s[0] <= 0x7F then 1
    else if |s| >= 2 && 0xC2 <= s[0] <= 0xDF && Tail(s[1]) then 2
    else if |s| >= 3 && Tail(s[2]) && (
              || (s[0] == 0xE0 && 0xA0 <= s[1] <= 0xBF)
              || (0xE1 <= s[0] <= 0xEC && Tail(s[1]))
              || (s[0] == 0xED && 0x80 <= s[1] <= 0x9F)
              || (0xEE <= s[0] <= 0xEF && Tail(s[1]))) then 3
    else if |s| >= 4 && Tail(s[2]) && Tail(s[3]) && (
              || (s[0] == 0xF0 && 0x90 <= s[1] <= 0xBF)
              || (0xF1 <= s[0] <= 0xF3 && Tail(s[1]))
              || (s[0] == 0xF4 && 0x80 <= s[1] <= 0x8F)) then 4
    else 0
  }

  /** UTF8-octets: a sequence of UTF8-chars. */
  predicate WellFormed8(s: bytes) {
    s == [] || (CharLength(s) > 0 && WellFormed8(s[CharLength(s)..]))
  }

  /** One step of Validate accepts exactly the UTF8-chars of the grammar. */
  lemma ValidateIsGrammar(s: bytes, p: nat)
    requires p < |s|
    ensures Validate8(s, p).0 <==> CharLength(s[p..]) > 0
    ensures Validate8(s, p).0 ==> Validate8(s, p).1 == p + CharLength(s[p..])
  {
    var t := s[p..];
    assert t[0] == s[p];
    assert |t| > 1 ==> t[1] == Peek(s, p + 1);
    assert |t| > 2 ==> t[2] == Peek(s, p + 2);
    assert |t| > 3 ==> t[3] == Peek(s, p + 3);
  }

  /** Validate, repeated until the end of the text. */
  predicate ValidateAll(s: bytes, p: nat)
    decreases Left(s, p)
  {
    p >= |s| || (Validate8(s, p).0 && ValidateAll(s, Validate8(s, p).1))
  }

  lemma {:induction false} ValidateAllIsGrammar(s: bytes, p: nat)
    requires p <= |s|
    ensures ValidateAll(s, p) <==> WellFormed8(s[p..])
    decreases |s| - p
  {
    if p < |s| {
      ValidateIsGrammar(s, p);
      var n := CharLength(s[p..]);
      if n > 0 {
        assert s[p..][n..] == s[p + n..];
        ValidateAllIsGrammar(s, p + n);
      }
    }
  }

  /** Decode and Validate agree on what they accept and on how far they read. */
  lemma DecodeAgreesWithValidate(s: bytes, p: nat)
    ensures Decode8(s, p).ok == Validate8(s, p).0
    ensures Decode8(s, p).pos == Validate8(s, p).1
  {
  }

  lemma TailMask(c: byte)
    ensures Trans(c, 0x70) <==> Tail(c)
    ensures Trans(c, 0x50) <==> 0x80 <= c <= 0x9F
    ensures Trans(c, 0x10) <==> 0x80 <= c <= 0x8F
    ensures Trans(c, 0x20) <==> 0xA0 <= c <= 0xBF
    ensures Trans(c, 0x60) <==> 0x90 <= c <= 0xBF
  {
  }

  /** What a lead byte says about its sequence, by ranges. */
  lemma LeadByte(c: byte)
    ensures Tails(c) == 1 <==> 0xC2 <= c <= 0xDF
    ensures Tails(c) == 2 <==> 0xE0 <= c <= 0xEF
    ensures Tails(c) == 3 <==> 0xF0 <= c <= 0xF4
    ensures Tails(c) <= 3
    ensures Tails(c) == 1 ==> LeadBits(c) == c - 0xC0
    ensures Tails(c) == 2 ==> LeadBits(c) == c - 0xE0
    ensures Tails(c) == 3 ==> LeadBits(c) == c - 0xF0
    ensures FirstMask(c) == if c == 0xED then 0x50 else if c == 0xF4 then 0x10
                            else if c == 0xE0 then 0x20 else if c == 0xF0 then 0x60 else 0x70
  {
  }

  lemma TailDigits(l: nat, x1: nat, x2: nat, x3: nat)
    requires x1 < 0x40 && x2 < 0x40 && x3 < 0x40
    ensures var cp := ((l * 0x40 + x1) * 0x40 + x2) * 0x40 + x3;
            cp / 0x40000 == l && cp / 0x1000 % 0x40 == x1 && cp / 0x40 % 0x40 == x2 && cp % 0x40 == x3
            && cp / 0x1000 == l * 0x40 + x1
  {
    Digit(l * 0x40 + x1, x2);
    Digit((l * 0x40 + x1) * 0x40 + x2, x3);
    Digit(l, x1);
    var cp := ((l * 0x40 + x1) * 0x40 + x2) * 0x40 + x3;
    assert cp / 0x40 / 0x40 == cp / 0x1000 && cp / 0x1000 / 0x40 == cp / 0x40000;
  }

  lemma Digit(high: nat, low: nat)
    requires low < 0x40
    ensures (high * 0x40 + low) / 0x40 == high && (high * 0x40 + low) % 0x40 == low
  {
  }

  /** Decode succeeds only on the shortest encoding of a scalar value, so Encode undoes it. */
  lemma DecodeIsShortest(s: bytes, p: nat)
    requires p < |s| && Decode8(s, p).ok
    ensures Scalar(Decode8(s, p).cp)
    ensures At(s, p, Encode8(Decode8(s, p).cp))
    ensures Decode8(s, p).pos == p + |Encode8(Decode8(s, p).cp)|
  {
    hide LeadBits, Trans, FirstMask, Encode8;
    var c, c1, c2, c3 := Peek(s, p), Peek(s, p + 1), Peek(s, p + 2), Peek(s, p + 3);
    LeadByte(c);
    TailMask(c1);
    TailMask(c2);
    TailMask(c3);
    if Tails(c) == 0 {
      SingleByte(c);
      assert s[p..p + 1] == [c];
    } else if Tails(c) == 1 {
      DoubleIsShortest(c, c1);
      assert s[p..p + 2] == [c, c1];
    } else if Tails(c) == 2 {
      TripleIsShortest(c, c1, c2);
      assert s[p..p + 3] == [c, c1, c2];
    } else {
      QuadIsShortest(c, c1, c2, c3);
      assert s[p..p + 4] == [c, c1, c2, c3];
    }
  }

  lemma SingleByte(c: byte)
    ensures c < 0x80 ==> Scalar(c) && Encode8(c) == [c]
  {
  }

  lemma DoubleIsShortest(c: byte, c1: byte)
    requires Tails(c) == 1 && Trans(c1, FirstMask(c))
    ensures var cp := LeadBits(c) * 0x40 + c1 % 0x40;
            Scalar(cp) && Encode8(cp) == [c, c1]
  {
    hide LeadBits, Tails, Trans, FirstMask;
    LeadByte(c);
    TailMask(c1);
  }

  lemma TripleIsShortest(c: byte, c1: byte, c2: byte)
    requires Tails(c) == 2 && Trans(c1, FirstMask(c)) && Trans(c2, 0x70)
    ensures var cp := (LeadBits(c) * 0x40 + c1 % 0x40) * 0x40 + c2 % 0x40;
            Scalar(cp) && Encode8(cp) == [c, c1, c2]
  {
    hide LeadBits, Tails, Trans, FirstMask;
    LeadByte(c);
    TailMask(c1);
    TailMask(c2);
    TailDigits(0, c - 0xE0, c1 % 0x40, c2 % 0x40);
  }

  lemma EncodeQuad(l: nat, x1: nat, x2: nat, x3: nat)
    requires l <= 4 && x1 < 0x40 && x2 < 0x40 && x3 < 0x40 && (l == 0 ==> x1 >= 0x10) && (l == 4 ==> x1 < 0x10)
    ensures var cp := ((l * 0x40 + x1) * 0x40 + x2) * 0x40 + x3;
            0x10000 <= cp <= 0x10FFFF && Encode8(cp) == [0xF0 + l, 0x80 + x1, 0x80 + x2, 0x80 + x3]
  {
    TailDigits(l, x1, x2, x3);
  }

  lemma QuadIsShortest(c: byte, c1: byte, c2: byte, c3: byte)
    requires Tails(c) == 3 && Trans(c1, FirstMask(c)) && Trans(c2, 0x70) && Trans(c3, 0x70)
    ensures var cp := ((LeadBits(c) * 0x40 + c1 % 0x40) * 0x40 + c2 % 0x40) * 0x40 + c3 % 0x40;
            Scalar(cp) && Encode8(cp) == [c, c1, c2, c3]
  {
    hide LeadBits, Tails, Trans, FirstMask, Encode8;
    LeadByte(c);
    TailMask(c1);
    TailMask(c2);
    TailMask(c3);
    EncodeQuad(c - 0xF0, c1 - 0x80, c2 - 0x80, c3 - 0x80);
  }

  lemma DoubleDecodes(cp: nat)
    requires 0x80 <= cp <= 0x7FF
    ensures var e := Encode8(cp);
            |e| == 2 && Tails(e[0]) == 1 && Trans(e[1], FirstMask(e[0])) && LeadBits(e[0]) * 0x40 + e[1] % 0x40 == cp
  {
    hide LeadBits, Tails, Trans, FirstMask;
    var e := Encode8(cp);
    LeadByte(e[0]);
    TailMask(e[1]);
  }

  lemma TripleDecodes(cp: nat)
    requires Scalar(cp) && 0x800 <= cp <= 0xFFFF
    ensures var e := Encode8(cp);
            && |e| == 3 && Tails(e[0]) == 2 && Trans(e[1], FirstMask(e[0])) && Trans(e[2], 0x70)
            && (LeadBits(e[0]) * 0x40 + e[1] % 0x40) * 0x40 + e[2] % 0x40 == cp
  {
    hide LeadBits, Tails, Trans, FirstMask;
    var e := Encode8(cp);
    LeadByte(e[0]);
    TailMask(e[1]);
    TailMask(e[2]);
    assert cp / 0x40 == cp / 0x1000 * 0x40 + cp / 0x40 % 0x40;
  }

  lemma QuadDecodes(cp: nat)
    requires 0x10000 <= cp <= 0x10FFFF
    ensures var e := Encode8(cp);
            && |e| == 4 && Tails(e[0]) == 3
            && Trans(e[1], FirstMask(e[0])) && Trans(e[2], 0x70) && Trans(e[3], 0x70)
            && ((LeadBits(e[0]) * 0x40 + e[1] % 0x40) * 0x40 + e[2] % 0x40) * 0x40 + e[3] % 0x40 == cp
  {
    hide LeadBits, Tails, Trans, FirstMask;
    QuadParts(cp);
    var e := Encode8(cp);
    hide Encode8;
    LeadByte(e[0]);
    TailMask(e[1]);
    TailMask(e[2]);
    TailMask(e[3]);
  }

  lemma QuadParts(cp: nat)
    requires 0x10000 <= cp <= 0x10FFFF
    ensures var e := Encode8(cp);
            && |e| == 4 && 0xF0 <= e[0] <= 0xF4 && Tail(e[1]) && Tail(e[2]) && Tail(e[3])
            && (e[0] == 0xF0 ==> e[1] >= 0x90) && (e[0] == 0xF4 ==> e[1] <= 0x8F)
            && (((e[0] as int - 0xF0) * 0x40 + e[1] as int % 0x40) * 0x40 + e[2] as int % 0x40) * 0x40 + e[3] as int % 0x40 == cp
  {
    SixBits(cp);
    SixBits(cp / 0x40);
    SixBits(cp / 0x1000);
    assert cp / 0x40 / 0x40 == cp / 0x1000 && cp / 0x1000 / 0x40 == cp / 0x40000;
  }

  lemma SixBits(n: nat)
    ensures n == n / 0x40 * 0x40 + n % 0x40 && (0x80 + n % 0x40) % 0x40 == n % 0x40
  {
  }

  /** Encode writes one UTF8-char for a scalar value, and Decode reads the same value back. */
  lemma DecodeUndoesEncode(s: bytes, p: nat, cp: nat)
    requires Scalar(cp) && At(s, p, Encode8(cp))
    ensures Decode8(s, p) == Decoded(true, cp, p + |Encode8(cp)|)
  {
    var e := Encode8(cp);
    AtIndex(s, p, e, 0);
    LeadByte(e[0]);
    if |e| > 1 { AtIndex(s, p, e, 1); }
    if |e| > 2 { AtIndex(s, p, e, 2); }
    if |e| > 3 { AtIndex(s, p, e, 3); }
    if |e| == 2 {
      DoubleDecodes(cp);
    } else if |e| == 3 {
      TripleDecodes(cp);
    } else if |e| == 4 {
      QuadDecodes(cp);
    }
  }

  // UTF16

  /** UTF16::Encode, for the scalar values its assertions allow. */
  function Encode16(cp: nat): seq<unit16>
    requires Scalar(cp)
  {
    if cp <= 0xFFFF then [cp]
    else [0xD800 + (cp - 0x10000) / 0x400, 0xDC00 + (cp - 0x10000) % 0x400]
  }

  function Peek16(s: seq<unit16>, p: nat): unit16 {
    if p < |s| then s[p] else 0
  }

  /** UTF16::Decode at position `p`. */
  function Decode16(s: seq<unit16>, p: nat): (d: Decoded)
    ensures d.pos > p
  {
    var c := Peek16(s, p);
    if c < 0xD800 || c > 0xDFFF then Decoded(true, c, p + 1)
    else if c <= 0xDBFF then
      var c1 := Peek16(s, p + 1);
      Decoded(0xDC00 <= c1 <= 0xDFFF, c % 0x400 * 0x400 + c1 % 0x400 + 0x10000, p + 2)
    else Decoded(false, 0, p + 1)
  }

  lemma Decode16UndoesEncode16(s: seq<unit16>, p: nat, cp: nat)
    requires Scalar(cp)
    requires p + |Encode16(cp)| <= |s| && s[p..p + |Encode16(cp)|] == Encode16(cp)
    ensures Decode16(s, p) == Decoded(true, cp, p + |Encode16(cp)|)
  {
    var e := Encode16(cp);
    assert s[p..p + |e|][0] == s[p] == e[0];
    if |e| > 1 {
      assert s[p..p + |e|][1] == s[p + 1] == e[1];
    }
  }

  lemma Decode16IsScalar(s: seq<unit16>, p: nat)
    requires p < |s| && Decode16(s, p).ok
    ensures Scalar(Decode16(s, p).cp)
    ensures Decode16(s, p).pos <= |s|
    ensures s[p..Decode16(s, p).pos] == Encode16(Decode16(s, p).cp)
  {
  }

  // Transcoder::Transcode, repeated to the end of the text; it stops where Decode fails.

  function To16(s: bytes, p: nat): (r: Option<seq<unit16>>)
    decreases Left(s, p)
  {
    if p >= |s| then Some([])
    else
      var d := Decode8(s, p);
      if !d.ok then None
      else
        DecodeIsShortest(s, p);
        var rest := To16(s, d.pos);
        if rest == None then None else Some(Encode16(d.cp) + rest.value)
  }

  function To8(s: seq<unit16>, p: nat): (r: Option<bytes>)
    decreases if p < |s| then |s| - p else 0
  {
    if p >= |s| then Some([])
    else
      var d := Decode16(s, p);
      if !d.ok then None
      else
        Decode16IsScalar(s, p);
        var rest := To8(s, d.pos);
        if rest == None then None else Some(Encode8(d.cp) + rest.value)
  }

  /** Well-formed UTF-8 is exactly what transcodes to UTF-16. */
  lemma {:induction false} To16Succeeds(s: bytes, p: nat)
    requires p <= |s|
    ensures To16(s, p).Some? <==> WellFormed8(s[p..])
    decreases |s| - p
  {
    if p < |s| {
      ValidateIsGrammar(s, p);
      DecodeAgreesWithValidate(s, p);
      if Decode8(s, p).ok {
        var q := Decode8(s, p).pos;
        assert s[p..][CharLength(s[p..])..] == s[q..];
        To16Succeeds(s, q);
      }
    }
  }

  lemma {:induction false} BackFrom16(s: bytes, p: nat, w: seq<unit16>, q: nat)
    requires p <= |s| && To16(s, p).Some?
    requires q <= |w| && w[q..] == To16(s, p).value
    ensures To8(w, q) == Some(s[p..])
    decreases |s| - p
  {
    hide Decode8, Encode8, Decode16, Encode16;
    if p < |s| {
      var d := Decode8(s, p);
      DecodeIsShortest(s, p);
      var e := Encode16(d.cp);
      var rest := To16(s, d.pos).value;
      assert w[q..] == e + rest;
      assert w[q..][..|e|] == w[q..q + |e|] == e;
      Decode16UndoesEncode16(w, q, d.cp);
      assert w[q..][|e|..] == w[q + |e|..];
      BackFrom16(s, d.pos, w, q + |e|);
      assert s[p..] == s[p..d.pos] + s[d.pos..];
    } else {
      assert s[p..] == [] == w[q..];
    }
  }

  /** UTF-8 to UTF-16 and back is the identity on every well-formed text. */
  lemma TranscodeRoundTrip(s: bytes)
    requires WellFormed8(s)
    ensures To16(s, 0).Some?
    ensures To8(To16(s, 0).value, 0) == Some(s)
  {
    assert s[0..] == s;
    To16Succeeds(s, 0);
    BackFrom16(s, 0, To16(s, 0).value, 0);
  }
}
