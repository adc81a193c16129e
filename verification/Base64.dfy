/** base64_encode and base64_decode, against section 4 of RFC 4648. Masks and shifts are divisions and remainders. */
module Base64 {
  import opened Bytes

  const PAD: byte := 0x3D
  /** `static_cast<unsigned char>(std::string::npos)` */
  const NOT_FOUND: byte := 255

  type Sextet = n: int | 0 <= n < 64

  /** base64_chars */
  function Char(n: Sextet): byte {
    if n < 26 then 0x41 + n else if n < 52 then 0x61 + n - 26 else if n < 62 then 0x30 + n - 52
    else if n == 62 then 0x2B else 0x2F
  }

  predicate IsBase64(c: byte) {
    c == 43 || 47 <= c <= 57 || 65 <= c <= 90 || 97 <= c <= 122
  }

  /** base64_chars.find, from position n on */
  function FindFrom(c: byte, n: nat): (r: byte)
    requires n <= 64
    ensures r < 64 ==> Char(r) == c && n <= r
    ensures r >= 64 ==> r == NOT_FOUND && forall k :: n <= k < 64 ==> Char(k) != c
    decreases 64 - n
  {
    if n == 64 then NOT_FOUND else if Char(n) == c then n else FindFrom(c, n + 1)
  }

  function Find(c: byte): byte {
    FindFrom(c, 0)
  }

  lemma FindUndoesChar(n: Sextet)
    ensures Find(Char(n)) == n
  {
  }

  /** is_base64 is true of the characters of the alphabet and no others. */
  lemma IsBase64Finds(c: byte)
    ensures IsBase64(c) <==> Find(c) < 64
  {
    if 65 <= c <= 90 {
      assert Char(c - 65) == c;
    } else if 97 <= c <= 122 {
      assert Char(c - 97 + 26) == c;
    } else if 48 <= c <= 57 {
      assert Char(c - 48 + 52) == c;
    } else if c == 43 {
      assert Char(62) == c;
    } else if c == 47 {
      assert Char(63) == c;
    }
  }

  // Groups of 24 bits

  /** The 24-bit number of up to three bytes, filled up with zeros. */
  function Bits(s: bytes): (v: nat)
    requires |s| <= 3
    ensures v < 0x100_0000
  {
    Peek(s, 0) * 0x1_0000 + Peek(s, 1) * 0x100 + Peek(s, 2)
  }

  /** Its four sextets, as characters. */
  function Sextets(v: nat): (r: bytes)
    requires v < 0x100_0000
    ensures |r| == 4
  {
    [Char(v / 0x4_0000), Char(v / 0x1000 % 64), Char(v / 64 % 64), Char(v % 64)]
  }

  function Repeat(c: byte, n: nat): (r: bytes)
    ensures |r| == n
  {
    seq(n, i => c)
  }

  /** The group of one, two or three bytes: one character more than bytes, then padding. */
  function EncodeGroup(s: bytes): (r: bytes)
    requires 0 < |s| <= 3
    ensures |r| == 4
  {
    Sextets(Bits(s))[..|s| + 1] + Repeat(PAD, 3 - |s|)
  }

  function Encoded(s: bytes): (r: bytes)
    ensures |r| == (|s| + 2) / 3 * 4
    decreases |s|
  {
    if s == [] then [] else if |s| <= 3 then EncodeGroup(s) else EncodeGroup(s[..3]) + Encoded(s[3..])
  }

  /** The 24-bit number of up to four characters, filled up with zeros. */
  function TextBits(t: bytes): nat
    requires |t| <= 4 && forall i :: 0 <= i < |t| ==> IsBase64(t[i])
  {
    Value64(t, 0) * 0x4_0000 + Value64(t, 1) * 0x1000 + Value64(t, 2) * 64 + Value64(t, 3)
  }

  function Value64(t: bytes, i: nat): Sextet
    requires forall i :: 0 <= i < |t| ==> IsBase64(t[i])
  {
    if i < |t| then (IsBase64Finds(t[i]); Find(t[i])) else 0
  }

  function ThreeBytes(v: nat): (r: bytes)
    ensures |r| == 3
  {
    [v / 0x1_0000 % 256, v / 0x100 % 256, v % 256]
  }

  /** Characters of the alphabet in groups of four; a last group of n gives n - 1 bytes. */
  function Decoded(t: bytes): bytes
    requires forall i :: 0 <= i < |t| ==> IsBase64(t[i])
    decreases |t|
  {
    if |t| < 2 then []
    else if |t| <= 4 then ThreeBytes(TextBits(t))[..|t| - 1]
    else ThreeBytes(TextBits(t[..4])) + Decoded(t[4..])
  }

  /** Where the characters of the alphabet end. */
  function TextEnd(t: bytes, p: nat): (q: nat)
    requires p <= |t|
    ensures p <= q <= |t| && (q < |t| ==> !IsBase64(t[q]))
    ensures forall i :: p <= i < q ==> IsBase64(t[i])
    decreases |t| - p
  {
    if p < |t| && IsBase64(t[p]) then TextEnd(t, p + 1) else p
  }

  function DecodedText(t: bytes): bytes {
    Decoded(t[..TextEnd(t, 0)])
  }

  // Decoding undoes encoding

  lemma TimesLess(a: nat, b: nat, c: nat)
    requires a <= b
    ensures a * c <= b * c
  {
  }

  lemma Divided(v: nat, c: nat, q: nat, r: nat)
    requires c > 0 && v == q * c + r && r < c
    ensures v / c == q && v % c == r
  {
    var q', r' := v / c, v % c;
    assert v == q' * c + r';
    if q' < q {
      TimesLess(q' + 1, q, c);
    } else if q < q' {
      TimesLess(q + 1, q', c);
    }
  }

  /** The bytes of four sextets, the second and third in two parts. */
  lemma BytesOfParts(a: nat, b1: nat, b0: nat, c1: nat, c0: nat, d: nat)
    requires a < 64 && b1 < 4 && b0 < 16 && c1 < 16 && c0 < 4 && d < 64
    ensures ThreeBytes(a * 0x4_0000 + (b1 * 16 + b0) * 0x1000 + (c1 * 4 + c0) * 64 + d)
            == [a * 4 + b1, b0 * 16 + c1, c0 * 64 + d]
  {
    var v := a * 0x4_0000 + (b1 * 16 + b0) * 0x1000 + (c1 * 4 + c0) * 64 + d;
    var x, y, z := a * 4 + b1, b0 * 16 + c1, c0 * 64 + d;
    Divided(v, 0x1_0000, x, y * 0x100 + z);
    Divided(v, 0x100, x * 0x100 + y, z);
    Divided(x * 0x100 + y, 0x100, x, y);
    Divided(x, 0x100, 0, x);
  }

  lemma BytesOfSextets(a: Sextet, b: Sextet, c: Sextet, d: Sextet)
    ensures ThreeBytes(a * 0x4_0000 + b * 0x1000 + c * 64 + d) == [a * 4 + b / 16, b % 16 * 16 + c / 4, c % 4 * 64 + d]
  {
    BytesOfParts(a, b / 16, b % 16, c / 4, c % 4, d);
  }

  /** The sextets of three bytes, each in two parts. */
  lemma SextetsOfParts(a1: nat, a0: nat, b1: nat, b0: nat, c1: nat, c0: nat)
    requires a1 < 64 && a0 < 4 && b1 < 16 && b0 < 16 && c1 < 4 && c0 < 64
    ensures var v := (a1 * 4 + a0) * 0x1_0000 + (b1 * 16 + b0) * 0x100 + (c1 * 64 + c0);
            v / 0x4_0000 == a1 && v / 0x1000 % 64 == a0 * 16 + b1 && v / 64 % 64 == b0 * 4 + c1 && v % 64 == c0
  {
    var v := (a1 * 4 + a0) * 0x1_0000 + (b1 * 16 + b0) * 0x100 + (c1 * 64 + c0);
    var x, y := a0 * 16 + b1, b0 * 4 + c1;
    Divided(v, 0x4_0000, a1, x * 0x1000 + y * 64 + c0);
    Divided(v, 0x1000, a1 * 64 + x, y * 64 + c0);
    Divided(a1 * 64 + x, 64, a1, x);
    Divided(v, 64, (a1 * 64 + x) * 64 + y, c0);
    Divided((a1 * 64 + x) * 64 + y, 64, a1 * 64 + x, y);
  }

  lemma SextetsOfBytes(a: byte, b: byte, c: byte)
    ensures var v := a * 0x1_0000 + b * 0x100 + c;
            && v / 0x4_0000 == a / 4 && v / 0x1000 % 64 == a % 4 * 16 + b / 16
            && v / 64 % 64 == b % 16 * 4 + c / 64 && v % 64 == c % 64
  {
    SextetsOfParts(a / 4, a % 4, b / 16, b % 16, c / 64, c % 64);
  }

  lemma SextetRead(n: Sextet)
    ensures IsBase64(Char(n)) && Find(Char(n)) == n
  {
    FindUndoesChar(n);
    IsBase64Finds(Char(n));
  }

  lemma SextetsRead(v: nat, n: nat)
    requires v < 0x100_0000 && 2 <= n <= 4
    ensures var t := Sextets(v)[..n];
            && (forall i :: 0 <= i < n ==> IsBase64(t[i]))
            && ThreeBytes(TextBits(t))[..n - 1] == ThreeBytes(v)[..n - 1]
  {
    hide Char, Find, IsBase64, ThreeBytes, Bits;
    var a, b, c, d := v / 0x4_0000, v / 0x1000 % 64, v / 64 % 64, v % 64;
    FourSextets(v);
    BytesOfSextets(a, b, c, d);
    SextetsBits(a, b, c, d, n);
    BytesOfSextets(a, b, if n > 2 then c else 0, if n > 3 then d else 0);
  }

  lemma SextetsBits(a: Sextet, b: Sextet, c: Sextet, d: Sextet, n: nat)
    requires 2 <= n <= 4
    ensures var t := [Char(a), Char(b), Char(c), Char(d)][..n];
            && (forall i :: 0 <= i < n ==> IsBase64(t[i]))
            && TextBits(t) == a * 0x4_0000 + b * 0x1000 + (if n > 2 then c else 0) * 64 + (if n > 3 then d else 0)
  {
    hide Char, Find, IsBase64;
    SextetRead(a);
    SextetRead(b);
    SextetRead(c);
    SextetRead(d);
  }

  lemma FourSextets(v: nat)
    ensures v == v / 0x4_0000 * 0x4_0000 + v / 0x1000 % 64 * 0x1000 + v / 64 % 64 * 64 + v % 64
  {
    var q, r := v / 0x4_0000, v % 0x4_0000;
    Divided(v, 0x1000, q * 64 + r / 0x1000, r % 0x1000);
    Divided(q * 64 + r / 0x1000, 64, q, r / 0x1000);
    Divided(v, 64, (q * 64 + r / 0x1000) * 64 + r % 0x1000 / 64, r % 64);
    Divided((q * 64 + r / 0x1000) * 64 + r % 0x1000 / 64, 64, q * 64 + r / 0x1000, r % 0x1000 / 64);
  }

  lemma BytesOfBits(s: bytes)
    requires 0 < |s| <= 3
    ensures ThreeBytes(Bits(s))[..|s|] == s
  {
    var a: nat, b: nat, c: nat := Peek(s, 0), Peek(s, 1), Peek(s, 2);
    Divided(Bits(s), 0x1_0000, a, b * 0x100 + c);
    Divided(Bits(s), 0x100, a * 0x100 + b, c);
    Divided(a * 0x100 + b, 0x100, a, b);
  }

  lemma GroupRead(s: bytes)
    requires 0 < |s| <= 3
    ensures var g := EncodeGroup(s)[..|s| + 1];
            (forall i :: 0 <= i <= |s| ==> IsBase64(g[i])) && Decoded(g) == s
  {
    var g := EncodeGroup(s)[..|s| + 1];
    assert g == Sextets(Bits(s))[..|s| + 1];
    SextetsRead(Bits(s), |s| + 1);
    BytesOfBits(s);
  }

  lemma TextEndIs(t: bytes, p: nat, q: nat)
    requires p <= q <= |t| && forall i :: p <= i < q ==> IsBase64(t[i])
    requires q < |t| ==> !IsBase64(t[q])
    ensures TextEnd(t, p) == q
    decreases q - p
  {
  }

  /** The characters before the padding. */
  function TextLength(n: nat): nat {
    n / 3 * 4 + if n % 3 == 0 then 0 else n % 3 + 1
  }

  /** Text of the alphabet, then padding, that decodes to s. */
  predicate TextOf(e: bytes, n: nat, s: bytes) {
    && n <= |e|
    && (forall i :: 0 <= i < n ==> IsBase64(e[i])) && (forall i :: n <= i < |e| ==> e[i] == PAD)
    && Decoded(e[..n]) == s
  }

  lemma LastGroup(s: bytes)
    requires 0 < |s| <= 3
    ensures TextOf(EncodeGroup(s), |s| + 1, s)
  {
    hide IsBase64, Decoded, Sextets, Bits;
    GroupRead(s);
    var e := EncodeGroup(s);
    assert forall i :: 0 <= i < |s| + 1 ==> e[i] == e[..|s| + 1][i];
  }

  lemma GroupBefore(g: bytes, e: bytes, n: nat, a: bytes, s: bytes)
    requires |g| == 4 && TextOf(g, 4, a) && TextOf(e, n, s)
    ensures TextOf(g + e, 4 + n, a + s)
  {
    hide IsBase64, Decoded;
    assert g[..4] == g && (g + e)[..4 + n] == g + e[..n];
    DecodedSplit(g, e[..n]);
  }

  lemma {:induction false} EncodedText(s: bytes)
    ensures TextOf(Encoded(s), TextLength(|s|), s)
    decreases |s|
  {
    hide TextOf, EncodeGroup;
    if s == [] {
      EmptyText();
    } else if |s| <= 3 {
      LastGroup(s);
    } else {
      LastGroup(s[..3]);
      EncodedText(s[3..]);
      SplitLength(|s|);
      GroupBefore(EncodeGroup(s[..3]), Encoded(s[3..]), TextLength(|s| - 3), s[..3], s[3..]);
      assert s[..3] + s[3..] == s;
    }
  }

  lemma EmptyText()
    ensures TextOf([], 0, [])
  {
  }

  lemma SplitLength(n: nat)
    requires n > 3
    ensures TextLength(n) == 4 + TextLength(n - 3)
  {
  }

  lemma DecodedSplit(g: bytes, rest: bytes)
    requires |g| == 4 && (forall i :: 0 <= i < 4 ==> IsBase64(g[i])) && (forall i :: 0 <= i < |rest| ==> IsBase64(rest[i]))
    ensures Decoded(g + rest) == Decoded(g) + Decoded(rest)
  {
    hide IsBase64, TextBits, ThreeBytes;
    assert ThreeBytes(TextBits(g))[..3] == ThreeBytes(TextBits(g));
    if rest == [] {
      assert g + rest == g && Decoded(g) + [] == Decoded(g);
    } else {
      assert (g + rest)[..4] == g && (g + rest)[4..] == rest;
    }
  }

  /** Decoding the encoded text gives the bytes back, whatever they are. */
  lemma {:induction false} DecodeUndoesEncode(s: bytes)
    ensures DecodedText(Encoded(s)) == s
    ensures |Encoded(s)| == 4 * ((|s| + 2) / 3)
  {
    hide Decoded, Encoded;
    EncodedText(s);
    TextEndIs(Encoded(s), 0, TextLength(|s|));
  }

  // The methods

  /** A number of bytes that are whole groups of `size`. */
  predicate Whole(n: nat, size: nat)
    requires size > 0
  {
    n % size == 0
  }

  lemma WholeNext(n: nat)
    ensures Whole(0, 3) && (Whole(n, 3) ==> Whole(n + 3, 3))
    ensures Whole(0, 4) && (Whole(n, 4) ==> Whole(n + 4, 4))
  {
  }

  lemma {:induction false} EncodedSplit(a: bytes, b: bytes)
    requires Whole(|a|, 3)
    ensures Encoded(a + b) == Encoded(a) + Encoded(b)
    decreases |a|
  {
    hide EncodeGroup;
    if a == [] {
      assert a + b == b;
    } else if b == [] {
      assert a + b == a && Encoded(a) + [] == Encoded(a);
    } else {
      assert (a + b)[..3] == a[..3] && (a + b)[3..] == a[3..] + b;
      EncodedSplit(a[3..], b);
      if |a| == 3 {
        assert a[..3] == a && Encoded(a[3..]) == [];
        assert EncodeGroup(a) + ([] + Encoded(b)) == EncodeGroup(a) + Encoded(b);
      } else {
        assert EncodeGroup(a[..3]) + (Encoded(a[3..]) + Encoded(b)) == EncodeGroup(a[..3]) + Encoded(a[3..]) + Encoded(b);
      }
    }
  }

  /** The four characters that three bytes become. */
  method Sixes(a3: array<byte>, a4: array<byte>)
    requires a3.Length == 3 && a4.Length == 4
    modifies a4
    ensures forall i :: 0 <= i < 4 ==> a4[i] < 64
    ensures [Char(a4[0]), Char(a4[1]), Char(a4[2]), Char(a4[3])] == Sextets(Bits(a3[..]))
  {
    a4[0] := a3[0] / 4;
    a4[1] := a3[0] % 4 * 16 + a3[1] / 16;
    a4[2] := a3[1] % 16 * 4 + a3[2] / 64;
    a4[3] := a3[2] % 64;
    SextetsOfBytes(a3[0], a3[1], a3[2]);
  }

  /** The loop that appends the first n characters of the table. */
  method AppendChars(ret: bytes, a4: array<byte>, n: nat) returns (out: bytes)
    requires n <= a4.Length == 4 && forall i :: 0 <= i < 4 ==> a4[i] < 64
    ensures out == ret + [Char(a4[0]), Char(a4[1]), Char(a4[2]), Char(a4[3])][..n]
  {
    hide Char;
    out := ret;
    for i := 0 to n
      invariant out == ret + [Char(a4[0]), Char(a4[1]), Char(a4[2]), Char(a4[3])][..i]
    {
      out := out + [Char(a4[i])];
    }
  }

  /** The end of base64_encode: i bytes are left. */
  method EncodeRest(ret: bytes, a3: array<byte>, a4: array<byte>, left: nat) returns (out: bytes)
    requires a3.Length == 3 && a4.Length == 4 && 0 < left < 3
    modifies a3, a4
    ensures out == ret + EncodeGroup(old(a3[..left]))
  {
    hide Char, Bits, Sextets;
    ghost var last := a3[..left];
    for j := left to 3
      invariant a3[..left] == last && forall k :: left <= k < j ==> a3[k] == 0
    {
      a3[j] := 0;
    }
    SameBits(a3[..], last);
    Sixes(a3, a4);
    out := AppendChars(ret, a4, left + 1);
    ghost var text := out;
    var i := left;
    while i < 3
      invariant left <= i <= 3 && out == text + Repeat(PAD, i - left)
    {
      out := out + [PAD];
      i := i + 1;
    }
  }

  method PutByte(a: array<byte>, i: nat, b: byte)
    requires i < a.Length
    modifies a
    ensures a[..i + 1] == old(a[..i]) + [b]
  {
    a[i] := b;
  }

  /** A whole group. */
  method EncodeThree(ret: bytes, a3: array<byte>, a4: array<byte>) returns (out: bytes)
    requires a3.Length == 3 && a4.Length == 4
    modifies a4
    ensures out == ret + Sextets(Bits(old(a3[..])))
  {
    hide Sextets, Char, Bits;
    Sixes(a3, a4);
    ghost var four := [Char(a4[0]), Char(a4[1]), Char(a4[2]), Char(a4[3])];
    assert four[..4] == four;
    out := AppendChars(ret, a4, 4);
  }

  method Encode(input: bytes) returns (ret: bytes)
    ensures ret == Encoded(input)
  {
    hide EncodeGroup, Encoded, Sextets, Char, Bits, Whole;
    ret := [];
    WholeNext(0);
    var i, p := 0, 0;
    var a3, a4 := new byte[3], new byte[4];
    EncodedEmpty();
    while p < |input|
      invariant i <= p <= |input| && i < 3 && Whole(p - i, 3)
      invariant a3[..i] == input[p - i..p]
      invariant ret == Encoded(input[..p - i])
    {
      PutByte(a3, i, input[p]);
      assert input[p - i..p] + [input[p]] == input[p - i..p + 1];
      i, p := i + 1, p + 1;
      if i == 3 {
        assert a3[..] == a3[..3];
        AddGroup(input, p);
        WholeNext(p - 3);
        ret := EncodeThree(ret, a3, a4);
        i := 0;
      }
    }
    if i != 0 {
      AddLast(input, p - i);
      assert a3[..i] == input[p - i..];
      ret := EncodeRest(ret, a3, a4, i);
    } else {
      assert input[..p] == input;
    }
  }

  lemma EncodedEmpty()
    ensures Encoded([]) == []
  {
  }

  /** Bits fills up with zeros. */
  lemma SameBits(a: bytes, last: bytes)
    requires |a| == 3 && 0 < |last| < 3 && a[..|last|] == last && forall k :: |last| <= k < 3 ==> a[k] == 0
    ensures Bits(a) == Bits(last)
  {
    assert forall k :: 0 <= k < |last| ==> a[k] == a[..|last|][k];
  }

  lemma AddGroup(input: bytes, p: nat)
    requires 3 <= p <= |input| && Whole(p - 3, 3)
    ensures Encoded(input[..p]) == Encoded(input[..p - 3]) + Sextets(Bits(input[p - 3..p]))
  {
    hide Encoded, Sextets, Bits;
    assert input[..p] == input[..p - 3] + input[p - 3..p];
    EncodedSplit(input[..p - 3], input[p - 3..p]);
    OneGroup(input[p - 3..p]);
    assert Sextets(Bits(input[p - 3..p]))[..4] + Repeat(PAD, 0) == Sextets(Bits(input[p - 3..p]));
  }

  lemma OneGroup(s: bytes)
    requires 0 < |s| <= 3
    ensures Encoded(s) == EncodeGroup(s)
  {
  }

  lemma AddLast(input: bytes, p: nat)
    requires p < |input| < p + 3 && Whole(p, 3)
    ensures Encoded(input) == Encoded(input[..p]) + EncodeGroup(input[p..])
  {
    hide Encoded, EncodeGroup;
    assert input == input[..p] + input[p..];
    EncodedSplit(input[..p], input[p..]);
    OneGroup(input[p..]);
  }

  /** The bytes of four table entries, as an unsigned char holds them. */
  function First(a: int, b: int): byte { (a * 4 + b % 64 / 16) % 256 }

  function Second(b: int, c: int): byte { b % 16 * 16 + c % 64 / 4 }

  function Third(c: int, d: int): byte { (c % 4 * 64 + d) % 256 }

  lemma Small(n: nat, c: nat)
    requires n < c
    ensures n % c == n
  {
    Divided(n, c, 0, n);
  }

  lemma FirstIs(a: Sextet, b: Sextet)
    ensures First(a, b) == a * 4 + b / 16
  {
    Small(b, 64);
    Small(a * 4 + b / 16, 256);
  }

  lemma SecondIs(b: Sextet, c: Sextet)
    ensures Second(b, c) == b % 16 * 16 + c / 4
  {
    Small(c, 64);
  }

  lemma ThirdIs(c: Sextet, d: Sextet)
    ensures Third(c, d) == c % 4 * 64 + d
  {
    Small(c % 4 * 64 + d, 256);
  }

  lemma BytesAre(a: Sextet, b: Sextet, c: Sextet, d: Sextet)
    ensures ThreeBytes(a * 0x4_0000 + b * 0x1000 + c * 64 + d) == [First(a, b), Second(b, c), Third(c, d)]
  {
    hide ThreeBytes, First, Second, Third;
    BytesOfSextets(a, b, c, d);
    FirstIs(a, b);
    SecondIs(b, c);
    ThirdIs(c, d);
  }

  /**
   * What the bytes computed from four table entries have to do with the first n characters: n - 1 of
   * them depend on no entry behind the n-th, whatever stands there.
   */
  lemma ThreeOfFour(t: bytes, a: byte, b: byte, c: byte, d: byte)
    requires 2 <= |t| <= 4 && forall i :: 0 <= i < |t| ==> IsBase64(t[i])
    requires a == Find(t[0]) && b == Find(t[1]) && (|t| > 2 ==> c == Find(t[2])) && (|t| > 3 ==> d == Find(t[3]))
    ensures [First(a, b), Second(b, c), Third(c, d)][..|t| - 1] == ThreeBytes(TextBits(t))[..|t| - 1]
  {
    hide Find, IsBase64, ThreeBytes, First, Second, Third;
    IsBase64Finds(t[0]);
    IsBase64Finds(t[1]);
    var v0, v1, v2, v3 := Value64(t, 0), Value64(t, 1), Value64(t, 2), Value64(t, 3);
    BytesAre(v0, v1, v2, v3);
    var x, y := [First(a, b), Second(b, c), Third(c, d)], [First(v0, v1), Second(v1, v2), Third(v2, v3)];
    assert ThreeBytes(TextBits(t)) == y;
    assert x[0] == y[0] && (|t| > 2 ==> x[1] == y[1]) && (|t| > 3 ==> x[2] == y[2]);
    SamePrefix(x, y, |t| - 1);
  }

  lemma SamePrefix(x: bytes, y: bytes, n: nat)
    requires n <= |x| == |y| && forall i :: 0 <= i < n ==> x[i] == y[i]
    ensures x[..n] == y[..n]
  {
  }

  /** The three bytes that four table entries become; the first entries are those of the characters. */
  method Thirds(a4: array<byte>, a3: array<byte>, ghost t: bytes)
    requires a3.Length == 3 && a4.Length == 4 && 1 <= |t| <= 4 && forall i :: 0 <= i < |t| ==> IsBase64(t[i])
    requires forall i :: 0 <= i < |t| ==> a4[i] == Find(t[i])
    modifies a3
    ensures a3[..|t| - 1] == if |t| == 1 then [] else ThreeBytes(TextBits(t))[..|t| - 1]
  {
    hide Find, IsBase64, ThreeBytes, TextBits, First, Second, Third;
    a3[0] := First(a4[0], a4[1]);
    a3[1] := Second(a4[1], a4[2]);
    a3[2] := Third(a4[2], a4[3]);
    if |t| > 1 {
      ThreeOfFour(t, a4[0], a4[1], a4[2], a4[3]);
      assert a3[..] == [First(a4[0], a4[1]), Second(a4[1], a4[2]), Third(a4[2], a4[3])];
      assert a3[..|t| - 1] == a3[..][..|t| - 1];
    }
  }

  /** The loop that replaces characters by their positions in the table. */
  method FindAll(a4: array<byte>)
    requires a4.Length == 4
    modifies a4
    ensures forall i :: 0 <= i < 4 ==> a4[i] == Find(old(a4[i]))
  {
    hide Find;
    for i := 0 to 4
      invariant forall k :: 0 <= k < 4 ==> a4[k] == if k < i then Find(old(a4[k])) else old(a4[k])
    {
      a4[i] := Find(a4[i]);
    }
  }

  method AppendBytes(ret: bytes, a3: array<byte>, n: nat) returns (out: bytes)
    requires n <= a3.Length
    ensures out == ret + a3[..n]
  {
    out := ret;
    for i := 0 to n
      invariant out == ret + a3[..i]
    {
      out := out + [a3[i]];
    }
  }

  lemma {:induction false} DecodedAppend(a: bytes, b: bytes)
    requires Whole(|a|, 4) && (forall i :: 0 <= i < |a| ==> IsBase64(a[i])) && (forall i :: 0 <= i < |b| ==> IsBase64(b[i]))
    ensures Decoded(a + b) == Decoded(a) + Decoded(b)
    decreases |a|
  {
    hide IsBase64, Decoded;
    if a == [] {
      assert a + b == b;
      DecodedEmpty();
    } else {
      var g, rest := a[..4], a[4..];
      assert a == g + rest && a + b == g + (rest + b);
      DecodedSplit(g, rest);
      DecodedSplit(g, rest + b);
      DecodedAppend(rest, b);
      assert Decoded(g) + (Decoded(rest) + Decoded(b)) == Decoded(g) + Decoded(rest) + Decoded(b);
    }
  }

  lemma DecodedEmpty()
    ensures Decoded([]) == []
  {
  }

  lemma DecodedGroup(t: bytes)
    requires 1 <= |t| <= 4 && forall i :: 0 <= i < |t| ==> IsBase64(t[i])
    ensures Decoded(t) == if |t| == 1 then [] else ThreeBytes(TextBits(t))[..|t| - 1]
  {
    hide IsBase64, ThreeBytes, TextBits;
  }

  /** The next group of characters, whole or the last. */
  lemma AddCharacters(input: bytes, p: nat, q: nat)
    requires p < q <= |input| && q - p <= 4 && Whole(p, 4) && forall i :: 0 <= i < q ==> IsBase64(input[i])
    ensures var t := input[p..q];
            Decoded(input[..q]) == Decoded(input[..p]) + if |t| == 1 then [] else ThreeBytes(TextBits(t))[..|t| - 1]
  {
    hide IsBase64, ThreeBytes, TextBits, Decoded;
    assert input[..q] == input[..p] + input[p..q];
    assert forall i :: 0 <= i < q - p ==> input[p..q][i] == input[p + i];
    DecodedAppend(input[..p], input[p..q]);
    DecodedGroup(input[p..q]);
  }

  method Decode(input: bytes) returns (ret: bytes)
    ensures ret == DecodedText(input)
  {
    hide IsBase64, Find, ThreeBytes, TextBits, Decoded, TextEnd, Whole;
    ret := [];
    WholeNext(0);
    var i, p := 0, 0;
    var a4, a3 := new byte[4], new byte[3];
    DecodedEmpty();
    PadIsNot();
    while p < |input| && input[p] != PAD && IsBase64(input[p])
      invariant i <= p <= |input| && i < 4 && Whole(p - i, 4)
      invariant forall k :: 0 <= k < i ==> a4[k] == input[p - i + k]
      invariant forall k :: 0 <= k < p ==> IsBase64(input[k])
      invariant ret == Decoded(input[..p - i])
    {
      a4[i] := input[p];
      i, p := i + 1, p + 1;
      if i == 4 {
        AddCharacters(input, p - 4, p);
        WholeNext(p - 4);
        ret := DecodeGroup(ret, a4, a3, 4, input[p - 4..p]);
        i := 0;
      }
    }
    TextEndIs(input, 0, p);
    if i != 0 {
      ghost var t := input[p - i..p];
      for j := i to 4
        invariant forall k :: 0 <= k < i ==> a4[k] == t[k]
      {
        a4[j] := 0;
      }
      AddCharacters(input, p - i, p);
      ret := DecodeGroup(ret, a4, a3, i, t);
    }
  }

  /** One group of n characters, whole or the last: n - 1 bytes of what the table entries give. */
  method DecodeGroup(ret: bytes, a4: array<byte>, a3: array<byte>, n: nat, ghost t: bytes) returns (out: bytes)
    requires a3.Length == 3 && a4.Length == 4 && 1 <= n == |t| <= 4
    requires forall i :: 0 <= i < n ==> IsBase64(t[i]) && a4[i] == t[i]
    modifies a3, a4
    ensures out == ret + if n == 1 then [] else ThreeBytes(TextBits(t))[..n - 1]
  {
    hide IsBase64, Find, ThreeBytes, TextBits;
    FindAll(a4);
    Thirds(a4, a3, t);
    out := AppendBytes(ret, a3, n - 1);
  }

  lemma PadIsNot()
    ensures !IsBase64(PAD)
  {
  }
}
