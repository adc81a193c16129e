/**
 * The JSON grammar of section 2 of RFC 4627, as a relation between a piece of text and the tree that it
 * stands for; scalars are allowed as roots. Each predicate speaks about the bytes from `i` up to `j`.
 * Unless the reader validates, a string may hold bytes that are not well-formed UTF-8.
 *
 * Behind the relation, and apart from it, stand the exceptions: what the reader refuses in a text though
 * the grammar of the RFC has it.
 */
module Grammar {
  import opened Bytes
  import opened Json
  import opened Encodings
  import opened ReaderSpec

  predicate Spaces(s: bytes, i: nat, j: nat) {
    i <= j <= |s| && forall k :: i <= k < j ==> IsSpace(s[k])
  }

  /** A structural character with the whitespace around it. */
  ghost predicate Token(s: bytes, i: nat, j: nat, ch: byte) {
    exists k: nat :: Spaces(s, i, k) && k < |s| && s[k] == ch && Spaces(s, k + 1, j)
  }

  // Strings

  /** The value of `\uXXXX` at `i`. */
  function HexEscape(s: bytes, i: nat): (r: Option<nat>)
    ensures r.Some? ==> r.value < 0x10000 && i + 6 <= |s|
  {
    if i + 6 <= |s| && s[i] == 0x5C && s[i + 1] == 0x75 then
      match (HexValue(s[i + 2]), HexValue(s[i + 3]), HexValue(s[i + 4]), HexValue(s[i + 5]))
      case (Some(a), Some(b), Some(d), Some(e)) => Some(((a * 16 + b) * 16 + d) * 16 + e)
      case _ => None
    else None
  }

  predicate IsLead(n: nat) { 0xD800 <= n <= 0xDBFF }
  predicate IsTrail(n: nat) { 0xDC00 <= n <= 0xDFFF }

  /** The bytes that one `char` of a string stands for, when the text from `i` to `k` is one. */
  function CharText(c: Input, i: nat, k: nat): Option<bytes>
    requires i < k <= |c.s|
  {
    var ch := c.s[i];
    if ch == 0x5C then EscapeText(c.s, i, k)
    else if ch < 0x20 || ch == 0x22 then None
    else if k - i == (if c.flags.validate then CharLength(c.s[i..]) else 1) then Some(c.s[i..k])
    else None
  }

  /** A pair of escaped surrogates stands for one code point; any other escape stands for its own. */
  function EscapeText(s: bytes, i: nat, k: nat): Option<bytes>
    requires i < k <= |s|
  {
    var h, h2 := HexEscape(s, i), HexEscape(s, i + 6);
    if k == i + 2 && Escape(s[i + 1]) != 0 then Some([Escape(s[i + 1])])
    else if h == None then None
    else if IsLead(h.value) && h2.Some? && IsTrail(h2.value) then
      if k == i + 12 then Some(Encode8(SurrogatePair(h.value, h2.value))) else None
    else if k == i + 6 then Some(Encode8(h.value))
    else None
  }

  /** The text between the quotation marks. */
  ghost predicate Chars(c: Input, i: nat, j: nat, x: bytes)
    requires j <= |c.s|
    decreases j - i, 0
  {
    if i >= j then i == j && x == []
    else exists k: nat :: i < k <= j && CharText(c, i, k).Some? && ThenChars(c, k, j, CharText(c, i, k).value, x)
  }

  ghost predicate ThenChars(c: Input, k: nat, j: nat, t: bytes, x: bytes)
    requires k <= j <= |c.s|
    decreases j - k, 1
  {
    t <= x && Chars(c, k, j, x[|t|..])
  }

  ghost predicate Str(c: Input, i: nat, j: nat, x: bytes) {
    i + 2 <= j <= |c.s| && c.s[i] == 0x22 && c.s[j - 1] == 0x22 && Chars(c, i + 1, j - 1, x)
  }

  // Numbers

  predicate Digits(s: bytes, i: nat, j: nat) {
    i < j <= |s| && AllDigits(s[i..j])
  }

  predicate IntPart(s: bytes, i: nat, j: nat) {
    Digits(s, i, j) && (s[i] == 0x30 ==> j == i + 1)
  }

  predicate FracPart(s: bytes, i: nat, j: nat) {
    i == j || (i < |s| && s[i] == 0x2E && Digits(s, i + 1, j))
  }

  /** Where the digits of an exponent begin. */
  function ExponentStart(s: bytes, i: nat): nat {
    if Peek(s, i + 1) == 0x2B || Peek(s, i + 1) == 0x2D then i + 2 else i + 1
  }

  predicate ExpPart(s: bytes, i: nat, j: nat) {
    i == j || ((Peek(s, i) == 0x65 || Peek(s, i) == 0x45) && Digits(s, ExponentStart(s, i), j))
  }

  function AfterMinus(s: bytes, i: nat): nat {
    if Peek(s, i) == 0x2D then i + 1 else i
  }

  /** An integer without fraction and exponent that fits 64 bits is that integer; any other number is a double. */
  ghost predicate Number(s: bytes, i: nat, j: nat, v: Json) {
    exists q: nat, f: nat ::
      IntPart(s, AfterMinus(s, i), q) && FracPart(s, q, f) && ExpPart(s, f, j) && NumberIs(s, i, q, j, v)
  }

  predicate NumberIs(s: bytes, i: nat, q: nat, j: nat, v: Json)
    requires IntPart(s, AfterMinus(s, i), q)
  {
    var p, minus := AfterMinus(s, i), Peek(s, i) == 0x2D;
    var n: int := Value(s[p..q]);
    if j == q && n <= Magnitude(minus) then v == JInt(if minus then -n else n)
    else q <= j <= |s| && v == JDouble(s[i..j])
  }

  // Values

  ghost predicate Denotes(c: Input, i: nat, j: nat, v: Json)
    decreases v, 1
  {
    match v
    case JNull => At(c.s, i, [0x6E] + NULL_REST) && j == i + 4
    case JBool(b) => if b then At(c.s, i, [0x74] + TRUE_REST) && j == i + 4
                     else At(c.s, i, [0x66] + FALSE_REST) && j == i + 5
    case JInt(_) => Number(c.s, i, j, v)
    case JDouble(_) => Number(c.s, i, j, v)
    case JString(x) => Str(c, i, j, x)
    case JArray(items) =>
      && i + 2 <= j <= |c.s| && c.s[i] == 0x5B && c.s[j - 1] == 0x5D
      && if items == [] then Spaces(c.s, i + 1, j - 1)
         else exists a: nat, b: nat :: Spaces(c.s, i + 1, a) && Values(c, a, b, items) && Spaces(c.s, b, j - 1)
    case JObject(members) =>
      && i + 2 <= j <= |c.s| && c.s[i] == 0x7B && c.s[j - 1] == 0x7D
      && if members == [] then Spaces(c.s, i + 1, j - 1)
         else exists a: nat, b: nat :: Spaces(c.s, i + 1, a) && Members(c, a, b, members) && Spaces(c.s, b, j - 1)
  }

  ghost predicate Values(c: Input, i: nat, j: nat, items: seq<Json>)
    decreases items
  {
    if items == [] then false
    else if items[1..] == [] then Denotes(c, i, j, items[0])
    else exists b: nat, a: nat :: Denotes(c, i, b, items[0]) && Token(c.s, b, a, 0x2C) && Values(c, a, j, items[1..])
  }

  ghost predicate Pair(c: Input, i: nat, j: nat, m: Member)
    decreases m
  {
    exists b: nat, a: nat :: Str(c, i, b, m.name) && Token(c.s, b, a, 0x3A) && Denotes(c, a, j, m.value)
  }

  ghost predicate Members(c: Input, i: nat, j: nat, members: seq<Member>)
    decreases members
  {
    if members == [] then false
    else if members[1..] == [] then Pair(c, i, j, members[0])
    else exists b: nat, a: nat :: Pair(c, i, b, members[0]) && Token(c.s, b, a, 0x2C) && Members(c, a, j, members[1..])
  }

  /** A whole text: one value between whitespace, then the end, which is the first NUL. */
  ghost predicate JsonText(c: Input, v: Json) {
    exists i: nat, j: nat, z: nat :: Spaces(c.s, 0, i) && Denotes(c, i, j, v) && Spaces(c.s, j, z) && Peek(c.s, z) == 0
  }

  // The exceptions

  /** An escaped lead surrogate without an escaped trail surrogate behind it. */
  predicate LoneLead(s: bytes, i: nat) {
    var h, h2 := HexEscape(s, i), HexEscape(s, i + 6);
    h.Some? && IsLead(h.value) && !(h2.Some? && IsTrail(h2.value))
  }

  function FracEnd(s: bytes, q: nat): (f: nat)
    ensures f >= q
    ensures q <= |s| ==> f <= |s|
  {
    if Peek(s, q) == 0x2E then DigitsEnd(s, q + 1) else q
  }

  function ExpEnd(s: bytes, f: nat): (j: nat)
    ensures j >= f
    ensures f <= |s| ==> j <= |s|
  {
    if Peek(s, f) == 0x65 || Peek(s, f) == 0x45 then DigitsEnd(s, ExponentStart(s, f)) else f
  }

  /** The end of the longest run that could be a number. */
  function NumberEnd(s: bytes, i: nat): (j: nat)
    ensures j >= i
    ensures i <= |s| ==> j <= |s|
    ensures Peek(s, i) == 0x2D || IsDigit(Peek(s, i)) ==> j > i
  {
    ExpEnd(s, FracEnd(s, IntegerEnd(s, AfterMinus(s, i))))
  }

  /** The digits before the last stay below a tenth of the largest double. */
  predicate Bounded(s: bytes, p: nat, q: nat)
    requires Digits(s, p, q)
  {
    AllDigits(s[p..q - 1]) && Value(s[p..q - 1]) < DoubleLimit()
  }

  /** A positive exponent above 308 begins at `f`. */
  predicate LargeExponent(s: bytes, f: nat) {
    && (Peek(s, f) == 0x65 || Peek(s, f) == 0x45) && Peek(s, f + 1) != 0x2D
    && Value(s[ExponentStart(s, f)..DigitsEnd(s, ExponentStart(s, f))]) > 308
  }

  /** A number with too many integer digits, or with too large an exponent. */
  predicate TooLarge(s: bytes, i: nat) {
    var p := AfterMinus(s, i);
    var q := IntegerEnd(s, p);
    (q > p && !Bounded(s, p, q)) || LargeExponent(s, FracEnd(s, q))
  }

  /**
   * Does an exception begin between `i` and `e`, where `i` stands outside of strings? What follows the first
   * NUL is not part of a text.
   */
  predicate HasException(s: bytes, i: nat, e: nat)
    decreases Left(s, i)
  {
    if i >= e || Peek(s, i) == 0 then false
    else if s[i] == 0x22 then StringHasException(s, i + 1, e)
    else if s[i] == 0x2D || IsDigit(s[i]) then TooLarge(s, i) || HasException(s, NumberEnd(s, i), e)
    else HasException(s, i + 1, e)
  }

  /** The same, from inside a string. */
  predicate StringHasException(s: bytes, i: nat, e: nat)
    decreases Left(s, i)
  {
    if i >= e || i >= |s| then false
    else if s[i] == 0x22 then HasException(s, i + 1, e)
    else if s[i] == 0x5C then LoneLead(s, i) || StringHasException(s, i + 2, e)
    else StringHasException(s, i + 1, e)
  }

  predicate Exceptional(s: bytes) {
    HasException(s, 0, |s|)
  }

  /** A number is taken as far as the text goes on with it. */
  predicate Longest(s: bytes, i: nat, j: nat, v: Json) {
    v.JInt? || v.JDouble? ==> j == NumberEnd(s, i)
  }

  /** A text that begins, behind whitespace, with one value. */
  ghost predicate JsonStart(c: Input, v: Json) {
    exists i: nat, j: nat ::
      Spaces(c.s, 0, i) && Denotes(c, i, j, v) && Longest(c.s, i, j, v) && !HasException(c.s, i, j)
  }

  /**
   * The texts that the reader takes, with the trees that they stand for: those of the grammar that have no
   * exception; when it stops behind the value, only as far as the value goes.
   */
  ghost predicate Readable(c: Input, v: Json) {
    if c.flags.stopWhenDone then JsonStart(c, v) else JsonText(c, v) && !Exceptional(c.s)
  }
}
