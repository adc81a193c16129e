/**
 * What GenericReader computes, as functions from a parse state to a parse state.
 * A state that carries an error is final. The class in Reader.dfy is proved against these functions.
 */
module ReaderSpec {
  import opened Bytes
  import opened Json
  import opened Encodings

  datatype ErrorCode =
    | DocumentEmpty | RootNotSingular | ValueInvalid
    | ObjectMissName | ObjectMissColon | ObjectMissCommaOrCurlyBracket
    | ArrayMissCommaOrSquareBracket
    | UnicodeEscapeInvalidHex | UnicodeSurrogateInvalid | EscapeInvalid | MissQuotationMark | InvalidEncoding
    | NumberTooBig | NumberMissFraction | NumberMissExponent
    | Termination | UnspecificSyntaxError

  datatype ParseError = ParseError(code: ErrorCode, offset: int)

  /** The flags kParseValidateEncodingFlag and kParseStopWhenDoneFlag. */
  datatype Flags = Flags(validate: bool, stopWhenDone: bool)

  /**
   * What a parse runs on: the text, the flags, and the handler. The handler is any function of the
   * events so far, the last one included, to the bool that its call returns.
   */
  datatype Input = Input(s: bytes, handler: seq<Event> -> bool, flags: Flags)

  datatype St = St(pos: nat, out: seq<Event>, err: Option<ParseError>) {
    predicate Ok() { err.None? }

    function Fail(code: ErrorCode, offset: int): St {
      St(pos, out, Some(ParseError(code, offset)))
    }

    function AtPos(p: nat): St { St(p, out, err) }
  }

  /** A handler call: the event is delivered, and a `false` answer ends the parse. */
  function Emit(c: Input, st: St, e: Event): St {
    var st' := st.(out := st.out + [e]);
    if c.handler(st'.out) then st' else st'.Fail(Termination, st.pos)
  }

  /** A handler that never ends the parse. */
  ghost predicate Accepting(c: Input) {
    forall es :: c.handler(es)
  }

  predicate IsSpace(c: byte) {
    c == 0x20 || c == 0x0A || c == 0x0D || c == 0x09
  }

  function SkipSpace(s: bytes, p: nat): (q: nat)
    ensures q >= p
    ensures p <= |s| ==> q <= |s|
    ensures !IsSpace(Peek(s, q))
    decreases Left(s, p)
  {
    if IsSpace(Peek(s, p)) then SkipSpace(s, p + 1) else p
  }

  function Skip(c: Input, st: St): St {
    st.AtPos(SkipSpace(c.s, st.pos))
  }

  // Literals

  const NULL_REST: bytes := [0x75, 0x6C, 0x6C]        // "ull"
  const TRUE_REST: bytes := [0x72, 0x75, 0x65]        // "rue"
  const FALSE_REST: bytes := [0x61, 0x6C, 0x73, 0x65] // "alse"

  /** Takes bytes while they match `rest`, and the first one that does not. */
  function TakeMatch(s: bytes, p: nat, rest: bytes): (r: (bool, nat))
    ensures r.0 && p <= |s| && 0 !in rest ==> r.1 <= |s|
    ensures r.1 >= p
    decreases rest
  {
    if rest == [] then (true, p)
    else if Peek(s, p) == rest[0] then TakeMatch(s, p + 1, rest[1..])
    else (false, p + 1)
  }

  lemma {:induction false} MatchAt(s: bytes, q: nat, rest: bytes)
    requires At(s, q, rest)
    ensures TakeMatch(s, q, rest) == (true, q + |rest|)
    decreases rest
  {
    if rest != [] {
      AtIndex(s, q, rest, 0);
      assert rest == [rest[0]] + rest[1..];
      AtSplit(s, q, [rest[0]], rest[1..]);
      MatchAt(s, q + 1, rest[1..]);
    }
  }

  function ParseLiteral(c: Input, st: St, rest: bytes, e: Event): (r: St)
    ensures r.Ok() && st.pos < |c.s| && 0 !in rest ==> r.pos <= |c.s|
    ensures r.pos > st.pos
  {
    var m := TakeMatch(c.s, st.pos + 1, rest);
    if m.0 then Emit(c, st.AtPos(m.1), e) else st.AtPos(m.1).Fail(ValueInvalid, m.1 - 1)
  }

  // Strings

  /** The reader's escape table; 0 where there is no entry. */
  function Escape(e: byte): byte {
    if e == 0x22 then 0x22       // '"'
    else if e == 0x2F then 0x2F  // '/'
    else if e == 0x5C then 0x5C  // '\'
    else if e == 0x62 then 0x08  // 'b'
    else if e == 0x66 then 0x0C  // 'f'
    else if e == 0x6E then 0x0A  // 'n'
    else if e == 0x72 then 0x0D  // 'r'
    else if e == 0x74 then 0x09  // 't'
    else 0
  }

  /** The value of a hexadecimal digit of either case. */
  function HexValue(c: byte): (r: Option<nat>)
    ensures r.Some? ==> r.value < 16
  {
    if 0x30 <= c <= 0x39 then Some(c - 0x30)
    else if 0x41 <= c <= 0x46 then Some(c - 0x41 + 10)
    else if 0x61 <= c <= 0x66 then Some(c - 0x61 + 10)
    else None
  }

  datatype Hex = Hex(value: nat, pos: nat, ok: bool)

  /** ParseHex4: on a bad digit it takes that digit, sets the error and returns 0. */
  function ParseHex4(s: bytes, p: nat, digits: nat := 4, value: nat := 0): (h: Hex)
    requires digits <= 4 && value < Power16(4 - digits)
    ensures h.ok && p <= |s| ==> h.pos <= |s|
    ensures h.value < 0x10000
    ensures !h.ok ==> h.value == 0
    ensures h.pos >= p && (digits > 0 ==> h.pos > p)
    decreases digits
  {
    if digits == 0 then Hex(value, p, true)
    else if HexValue(Peek(s, p)) == None then Hex(0, p + 1, false)
    else ParseHex4(s, p + 1, digits - 1, value * 16 + HexValue(Peek(s, p)).value)
  }

  function Power16(k: nat): nat
    requires k <= 4
  {
    if k == 0 then 1 else if k == 1 then 16 else if k == 2 then 0x100 else if k == 3 then 0x1000 else 0x10000
  }

  lemma HexStep(s: bytes, p: nat, digits: nat, value: nat)
    requires 0 < digits <= 4 && value < Power16(4 - digits)
    ensures var d := HexValue(Peek(s, p));
            if d.Some? then
              && value * 16 + d.value < Power16(5 - digits)
              && ParseHex4(s, p, digits, value) == ParseHex4(s, p + 1, digits - 1, value * 16 + d.value)
            else ParseHex4(s, p, digits, value) == Hex(0, p + 1, false)
  {
    hide HexValue;
  }

  lemma HexDone(s: bytes, p: nat, n: nat)
    requires n < Power16(4)
    ensures ParseHex4(s, p, 0, n) == Hex(n, p, true)
  {
  }

  /** ParseHex4 takes four digits, or fails. */
  lemma {:induction false} HexFour(s: bytes, p: nat)
    ensures var a, b := HexValue(Peek(s, p)), HexValue(Peek(s, p + 1));
            var d, e := HexValue(Peek(s, p + 2)), HexValue(Peek(s, p + 3));
            if a.Some? && b.Some? && d.Some? && e.Some? then
              ParseHex4(s, p) == Hex(((a.value * 16 + b.value) * 16 + d.value) * 16 + e.value, p + 4, true)
            else !ParseHex4(s, p).ok
  {
    hide ParseHex4, HexValue;
    var a, b := HexValue(Peek(s, p)), HexValue(Peek(s, p + 1));
    var d, e := HexValue(Peek(s, p + 2)), HexValue(Peek(s, p + 3));
    HexStep(s, p, 4, 0);
    if a.Some? {
      HexStep(s, p + 1, 3, a.value);
      if b.Some? {
        HexStep(s, p + 2, 2, a.value * 16 + b.value);
        if d.Some? {
          HexStep(s, p + 3, 1, (a.value * 16 + b.value) * 16 + d.value);
          if e.Some? {
            HexDone(s, p + 4, ((a.value * 16 + b.value) * 16 + d.value) * 16 + e.value);
          }
        }
      }
    }
  }

  datatype Scan = Scan(pos: nat, text: bytes, err: Option<ParseError>)

  function SurrogatePair(lead: nat, trail: nat): (cp: nat)
    requires 0xD800 <= lead <= 0xDBFF && 0xDC00 <= trail <= 0xDFFF
    ensures 0x10000 <= cp <= 0x10FFFF
  {
    (lead - 0xD800) * 0x400 + (trail - 0xDC00) + 0x10000
  }

  /**
   * The loop of ParseStringToStream. A bad hex digit sets the error, yet the loop goes on with code
   * point 0; every other error leaves it at once.
   */
  function ScanString(c: Input, p: nat, text: bytes, err: Option<ParseError>): (r: Scan)
    ensures r.err.None? && p <= |c.s| ==> r.pos <= |c.s|
    ensures r.pos >= p
    ensures err.Some? ==> r.err.Some?
    decreases Left(c.s, p)
  {
    var ch := Peek(c.s, p);
    if ch == 0x5C then ScanEscape(c, p, text, err)
    else if ch == 0x22 then Scan(p + 1, text, err)
    else if ch == 0 then Scan(p, text, Some(ParseError(MissQuotationMark, p - 1)))
    else if ch < 0x20 then Scan(p, text, Some(ParseError(EscapeInvalid, p - 1)))
    else if c.flags.validate then
      var v := Validate8(c.s, p);
      if v.0 then ScanString(c, v.1, text + CopyRange(c.s, p, v.1), err)
      else Scan(v.1, text, Some(ParseError(InvalidEncoding, v.1)))
    else ScanString(c, p + 1, text + [ch], err)
  }

  function ScanEscape(c: Input, p: nat, text: bytes, err: Option<ParseError>): (r: Scan)
    requires Peek(c.s, p) == 0x5C
    ensures r.err.None? ==> r.pos <= |c.s|
    ensures r.pos >= p
    ensures err.Some? ==> r.err.Some?
    decreases Left(c.s, p), 0
  {
    var e := Peek(c.s, p + 1);
    if Escape(e) != 0 then ScanString(c, p + 2, text + [Escape(e)], err)
    else if e != 0x75 then Scan(p + 2, text, Some(ParseError(EscapeInvalid, p + 1)))
    else
      var h := ParseHex4(c.s, p + 2);
      var err1 := if h.ok then err else Some(ParseError(UnicodeEscapeInvalidHex, h.pos - 1));
      if 0xD800 <= h.value <= 0xDBFF then
        if Peek(c.s, h.pos) != 0x5C then Scan(h.pos + 1, text, Some(ParseError(UnicodeSurrogateInvalid, h.pos - 1)))
        else if Peek(c.s, h.pos + 1) != 0x75 then
          Scan(h.pos + 2, text, Some(ParseError(UnicodeSurrogateInvalid, h.pos)))
        else
          var h2 := ParseHex4(c.s, h.pos + 2);
          if h2.value < 0xDC00 || h2.value > 0xDFFF then
            Scan(h2.pos, text, Some(ParseError(UnicodeSurrogateInvalid, h2.pos - 2)))
          else ScanString(c, h2.pos, text + Encode8(SurrogatePair(h.value, h2.value)), err1)
      else ScanString(c, h.pos, text + Encode8(h.value), err1)
  }

  // An error is to be assigned only once, so the original asserts; a bad hex digit does not end the loop.

  /** The loop over a string, from `p` on, comes to an error. */
  predicate Fails(c: Input, p: nat) {
    ScanString(c, p, [], None).err.Some?
  }

  /**
   * The loop assigns a second error: a bad digit has set one, and the loop, going on behind it, comes to
   * another; in the second half of a surrogate pair it does so at once.
   */
  predicate AssignsTwice(c: Input, p: nat)
    decreases Left(c.s, p)
  {
    var ch, e := Peek(c.s, p), Peek(c.s, p + 1);
    if ch == 0x5C && Escape(e) != 0 then AssignsTwice(c, p + 2)
    else if ch == 0x5C && e == 0x75 then
      var h := ParseHex4(c.s, p + 2);
      if !h.ok then Fails(c, h.pos)
      else if h.value < 0xD800 || h.value > 0xDBFF then AssignsTwice(c, h.pos)
      else if Peek(c.s, h.pos) != 0x5C || Peek(c.s, h.pos + 1) != 0x75 then false
      else
        var h2 := ParseHex4(c.s, h.pos + 2);
        !h2.ok || (0xDC00 <= h2.value <= 0xDFFF && AssignsTwice(c, h2.pos))
    else if ch == 0x5C || ch == 0x22 || ch < 0x20 then false
    else if c.flags.validate then Validate8(c.s, p).0 && AssignsTwice(c, Validate8(c.s, p).1)
    else AssignsTwice(c, p + 1)
  }

  /** In the text "\uZ the end of the text is the second error; with a closing quotation mark there is none. */
  lemma {:induction false} SecondError(c: Input)
    requires [0x22, 0x5C, 0x75, 0x5A] <= c.s
    ensures |c.s| == 4 ==> AssignsTwice(c, 1)
    ensures |c.s| == 5 && c.s[4] == 0x22 ==> !AssignsTwice(c, 1) && Fails(c, 1)
  {
    HexFour(c.s, 3);
    HexStep(c.s, 3, 4, 0);
  }

  /** From `p` on, with an error set or not, an error will be assigned where one is set. */
  predicate WillAssign(c: Input, p: nat, failed: bool) {
    if failed then Fails(c, p) else AssignsTwice(c, p)
  }

  /** Whether the loop comes to an error does not depend on what it has read. */
  lemma {:induction false} TextIgnored(c: Input, p: nat, text: bytes)
    ensures ScanString(c, p, text, None).err.Some? <==> Fails(c, p)
    decreases Left(c.s, p)
  {
    hide ParseHex4, Encode8, Validate8;
    var ch := Peek(c.s, p);
    if ch == 0x5C {
      EscapeTextIgnored(c, p, text);
    } else if ch != 0x22 && ch >= 0x20 {
      var v := if c.flags.validate then Validate8(c.s, p) else (true, p + 1);
      var t := if c.flags.validate then CopyRange(c.s, p, v.1) else [ch];
      if v.0 {
        TextIgnored(c, v.1, text + t);
        TextIgnored(c, v.1, [] + t);
      }
    }
  }

  lemma {:induction false} EscapeTextIgnored(c: Input, p: nat, text: bytes)
    requires Peek(c.s, p) == 0x5C
    ensures ScanEscape(c, p, text, None).err.Some? <==> ScanEscape(c, p, [], None).err.Some?
    decreases Left(c.s, p), 0
  {
    hide ParseHex4, Encode8, ScanString;
    var e := Peek(c.s, p + 1);
    if Escape(e) != 0 {
      TextIgnored(c, p + 2, text + [Escape(e)]);
      TextIgnored(c, p + 2, [] + [Escape(e)]);
    } else if e == 0x75 {
      var h := ParseHex4(c.s, p + 2);
      if 0xD800 <= h.value <= 0xDBFF {
        var h2 := ParseHex4(c.s, h.pos + 2);
        if 0xDC00 <= h2.value <= 0xDFFF {
          TextIgnored(c, h2.pos, text + Encode8(SurrogatePair(h.value, h2.value)));
          TextIgnored(c, h2.pos, [] + Encode8(SurrogatePair(h.value, h2.value)));
        }
      } else {
        TextIgnored(c, h.pos, text + Encode8(h.value));
        TextIgnored(c, h.pos, [] + Encode8(h.value));
      }
    }
  }

  /** Where an escape is behind the loop, what is to come has not changed. */
  lemma {:induction false} FailsBehindEscape(c: Input, p: nat)
    requires Peek(c.s, p) == 0x5C
    ensures var e := Peek(c.s, p + 1);
            var h := ParseHex4(c.s, p + 2);
            var h2 := ParseHex4(c.s, h.pos + 2);
            Fails(c, p) ==
            if Escape(e) != 0 then Fails(c, p + 2)
            else if e != 0x75 || !h.ok then true
            else if h.value < 0xD800 || h.value > 0xDBFF then Fails(c, h.pos)
            else if Peek(c.s, h.pos) != 0x5C || Peek(c.s, h.pos + 1) != 0x75 then true
            else !(h2.ok && 0xDC00 <= h2.value <= 0xDFFF) || Fails(c, h2.pos)
  {
    hide ParseHex4, Encode8;
    assert Fails(c, p) <==> ScanEscape(c, p, [], None).err.Some?;
    hide ScanString;
    var e, h := Peek(c.s, p + 1), ParseHex4(c.s, p + 2);
    if Escape(e) != 0 {
      TextIgnored(c, p + 2, [] + [Escape(e)]);
    } else if e == 0x75 && h.ok {
      if 0xD800 <= h.value <= 0xDBFF {
        var h2 := ParseHex4(c.s, h.pos + 2);
        if 0xDC00 <= h2.value <= 0xDFFF {
          TextIgnored(c, h2.pos, [] + Encode8(SurrogatePair(h.value, h2.value)));
        }
      } else {
        TextIgnored(c, h.pos, [] + Encode8(h.value));
      }
    }
  }

  /** What is to come behind `\u`, whose digits stand at `q`. */
  predicate WillAssignUnicode(c: Input, q: nat, failed: bool) {
    var h := ParseHex4(c.s, q);
    var failed1 := failed || !h.ok;
    || (failed && !h.ok)
    || if h.value < 0xD800 || h.value > 0xDBFF then WillAssign(c, h.pos, failed1)
       else if Peek(c.s, h.pos) != 0x5C || Peek(c.s, h.pos + 1) != 0x75 then failed1
       else
         var h2 := ParseHex4(c.s, h.pos + 2);
         var failed2 := failed1 || !h2.ok;
         || (failed1 && !h2.ok)
         || if h2.value < 0xDC00 || h2.value > 0xDFFF then failed2 else WillAssign(c, h2.pos, failed2)
  }

  lemma {:induction false} AssignsBehindEscape(c: Input, p: nat, failed: bool)
    requires Peek(c.s, p) == 0x5C
    ensures var e := Peek(c.s, p + 1);
            WillAssign(c, p, failed) ==
            if Escape(e) != 0 then WillAssign(c, p + 2, failed)
            else if e != 0x75 then failed
            else WillAssignUnicode(c, p + 2, failed)
  {
    hide Fails, ParseHex4;
    FailsBehindEscape(c, p);
  }

  lemma {:induction false} AssignsBehindChar(c: Input, p: nat, failed: bool)
    requires Peek(c.s, p) != 0x5C
    ensures var ch := Peek(c.s, p);
            WillAssign(c, p, failed) ==
            if ch == 0x22 then false
            else if ch < 0x20 then failed
            else if c.flags.validate then
              if Validate8(c.s, p).0 then WillAssign(c, Validate8(c.s, p).1, failed) else failed
            else WillAssign(c, p + 1, failed)
  {
    hide Fails, Validate8;
    FailsBehindChar(c, p);
  }

  /** A string that assigns two errors fails. */
  lemma {:induction false} TwiceFails(c: Input, p: nat)
    requires AssignsTwice(c, p)
    ensures Fails(c, p)
    decreases Left(c.s, p)
  {
    hide Fails, ParseHex4, Validate8;
    if Peek(c.s, p) == 0x5C {
      FailsBehindEscape(c, p);
      var e, h := Peek(c.s, p + 1), ParseHex4(c.s, p + 2);
      if Escape(e) != 0 {
        TwiceFails(c, p + 2);
      } else if h.ok && 0xD800 <= h.value <= 0xDBFF {
        if ParseHex4(c.s, h.pos + 2).ok {
          TwiceFails(c, ParseHex4(c.s, h.pos + 2).pos);
        }
      } else if h.ok {
        TwiceFails(c, h.pos);
      }
    } else {
      FailsBehindChar(c, p);
      TwiceFails(c, if c.flags.validate then Validate8(c.s, p).1 else p + 1);
    }
  }

  lemma {:induction false} FailsBehindChar(c: Input, p: nat)
    requires Peek(c.s, p) != 0x5C
    ensures var ch := Peek(c.s, p);
            Fails(c, p) ==
            if ch == 0x22 then false
            else if ch < 0x20 then true
            else if c.flags.validate then !Validate8(c.s, p).0 || Fails(c, Validate8(c.s, p).1)
            else Fails(c, p + 1)
  {
    hide Validate8;
    var ch := Peek(c.s, p);
    if ch != 0x22 && ch >= 0x20 {
      var v := if c.flags.validate then Validate8(c.s, p) else (true, p + 1);
      var t := if c.flags.validate then CopyRange(c.s, p, v.1) else [ch];
      if v.0 {
        TextIgnored(c, v.1, [] + t);
      }
    }
  }

  function ParseString(c: Input, st: St, isKey: bool): (r: St)
    requires st.Ok()
    ensures r.Ok() && st.pos < |c.s| ==> r.pos <= |c.s|
    ensures r.pos > st.pos
  {
    var r := ScanString(c, st.pos + 1, [], None);
    if r.err.Some? then St(r.pos, st.out, r.err)
    else Emit(c, st.AtPos(r.pos), if isKey then Key(r.text) else String(r.text))
  }

  // Numbers

  function Power10(k: nat): nat {
    if k == 0 then 1 else 10 * Power10(k - 1)
  }

  /** DBL_MAX / 10, the bound that the double accumulator is checked against. */
  function DoubleLimit(): nat {
    17976931348623157 * Power10(291)
  }

  lemma {:induction false} PowerPositive(k: nat)
    ensures Power10(k) >= 1
  {
    if k > 0 {
      PowerPositive(k - 1);
    }
  }

  /** Nothing that fits 64 bits comes near the bound. */
  lemma {:induction false} LimitIsLarge()
    ensures DoubleLimit() > TWO_TO_THE_64
  {
    PowerPositive(287);
    assert Power10(291) == 10 * Power10(290) == 100 * Power10(289) == 1000 * Power10(288) == 10000 * Power10(287);
  }

  /**
   * The integer digits of a number read as a double: each digit is taken only while the value before
   * it is below the limit.
   */
  function BigDigits(s: bytes, p: nat, d: nat): (r: (nat, bool))
    ensures r.0 >= p
    decreases Left(s, p)
  {
    if !IsDigit(Peek(s, p)) then (p, true)
    else if d >= DoubleLimit() then (p, false)
    else BigDigits(s, p + 1, d * 10 + (Peek(s, p) - 0x30))
  }

  /** The digits of an exponent after the first: a positive exponent above 308 is an error. */
  function ExponentDigits(s: bytes, p: nat, e: nat, minus: bool): (r: (nat, bool))
    ensures r.1 && p <= |s| ==> r.0 <= |s|
    ensures r.0 >= p
    decreases Left(s, p)
  {
    if !IsDigit(Peek(s, p)) then (p, true)
    else
      var e' := e * 10 + (Peek(s, p) - 0x30);
      if e' > 308 && !minus then (p + 1, false) else ExponentDigits(s, p + 1, e', minus)
  }

  /** The end of `zero / ( digit1-9 *DIGIT )`, or nothing when no digit stands at `p`. */
  function IntegerEnd(s: bytes, p: nat): (q: nat)
    ensures q >= p
    ensures q == p <==> !IsDigit(Peek(s, p))
    ensures p <= |s| ==> q <= |s| && AllDigits(s[p..q])
  {
    if Peek(s, p) == 0x30 then p + 1 else DigitsEnd(s, p)
  }

  /** The largest magnitude that the reader reports as an integer: 2^63 or 2^64-1. */
  function Magnitude(minus: bool): nat {
    if minus then TWO_TO_THE_63 else TWO_TO_THE_64 - 1
  }

  /** The handler class of an integer: the narrowest that holds the magnitude; "-0" is an Int. */
  function NumberEvent(minus: bool, n: int): Event {
    if minus then if n <= TWO_TO_THE_31 then Int(-n) else Int64(-n)
    else if n < TWO_TO_THE_32 then Uint(n) else Uint64(n)
  }

  /** ParseNumber: minus, integer digits, fraction, exponent, one event. */
  function ParseNumber(c: Input, st: St): (r: St)
    requires st.Ok()
    ensures r.Ok() && st.pos <= |c.s| ==> r.pos <= |c.s|
    ensures r.pos >= st.pos
    ensures r.Ok() ==> r.pos > st.pos
  {
    var minus := Peek(c.s, st.pos) == 0x2D;
    var p := if minus then st.pos + 1 else st.pos;
    var q := IntegerEnd(c.s, p);
    if q == p then st.AtPos(p).Fail(ValueInvalid, p)
    else
      var n := Value(c.s[p..q]);
      var big := BigDigits(c.s, p, 0);
      if n > Magnitude(minus) && !big.1 then st.AtPos(big.0).Fail(NumberTooBig, big.0)
      else if Peek(c.s, q) == 0x2E || Peek(c.s, q) == 0x65 || Peek(c.s, q) == 0x45 || n > Magnitude(minus) then
        ParseFraction(c, st, q)
      else Emit(c, st.AtPos(q), NumberEvent(minus, n))
  }

  /** The rest of a number that is a double; `st.pos` is where the number starts, `q` where its integer ends. */
  function ParseFraction(c: Input, st: St, q: nat): (r: St)
    requires st.Ok() && q > st.pos
    ensures r.Ok() && q <= |c.s| ==> r.pos <= |c.s|
    ensures r.pos > st.pos
  {
    if Peek(c.s, q) == 0x2E then
      if !IsDigit(Peek(c.s, q + 1)) then st.AtPos(q + 1).Fail(NumberMissFraction, q + 1)
      else ParseExponent(c, st, DigitsEnd(c.s, q + 1))
    else ParseExponent(c, st, q)
  }

  function ParseExponent(c: Input, st: St, q: nat): (r: St)
    requires st.Ok() && q > st.pos
    ensures r.Ok() && q <= |c.s| ==> r.pos <= |c.s|
    ensures r.pos > st.pos
  {
    if Peek(c.s, q) == 0x65 || Peek(c.s, q) == 0x45 then
      var sign := Peek(c.s, q + 1);
      var p := if sign == 0x2B || sign == 0x2D then q + 2 else q + 1;
      if !IsDigit(Peek(c.s, p)) then st.AtPos(p).Fail(NumberMissExponent, p)
      else
        var x := ExponentDigits(c.s, p + 1, Peek(c.s, p) - 0x30, sign == 0x2D);
        if x.1 then EmitDouble(c, st, x.0) else st.AtPos(x.0).Fail(NumberTooBig, x.0)
    else EmitDouble(c, st, q)
  }

  function EmitDouble(c: Input, st: St, q: nat): (r: St)
    requires q > st.pos
    ensures r.pos == q
  {
    Emit(c, st.AtPos(q), Double(CopyRange(c.s, st.pos, q)))
  }

  /** Nothing behind a number can be taken for more of it. */
  predicate Delimited(s: bytes, q: nat) {
    var ch := Peek(s, q);
    !IsDigit(ch) && ch != 0x2E && ch != 0x65 && ch != 0x45
  }

  // Values: the recursive descent

  function ParseValue(c: Input, st: St): (r: St)
    requires st.Ok()
    ensures r.Ok() && st.pos <= |c.s| ==> r.pos <= |c.s|
    ensures r.pos >= st.pos
    ensures r.Ok() ==> r.pos > st.pos
    decreases Left(c.s, st.pos), 2
  {
    var ch := Peek(c.s, st.pos);
    if ch == 0x6E then ParseLiteral(c, st, NULL_REST, Null)
    else if ch == 0x74 then ParseLiteral(c, st, TRUE_REST, Bool(true))
    else if ch == 0x66 then ParseLiteral(c, st, FALSE_REST, Bool(false))
    else if ch == 0x22 then ParseString(c, st, false)
    else if ch == 0x7B then ParseObject(c, st)
    else if ch == 0x5B then ParseArray(c, st)
    else ParseNumber(c, st)
  }

  function ParseArray(c: Input, st: St): (r: St)
    requires st.Ok() && Peek(c.s, st.pos) == 0x5B
    ensures r.Ok() ==> r.pos <= |c.s|
    ensures r.pos > st.pos
    decreases Left(c.s, st.pos), 1
  {
    var st1 := Emit(c, st.AtPos(st.pos + 1), StartArray);
    if !st1.Ok() then st1 else ArrayBody(c, Skip(c, st1))
  }

  /** From after the opening bracket. */
  function ArrayBody(c: Input, st: St): (r: St)
    requires st.Ok()
    ensures r.Ok() && st.pos <= |c.s| ==> r.pos <= |c.s|
    ensures r.pos >= st.pos
    decreases Left(c.s, st.pos), 4
  {
    if Peek(c.s, st.pos) == 0x5D then Emit(c, st.AtPos(st.pos + 1), EndArray(0)) else ArrayLoop(c, st, 0)
  }

  /** The element loop, with `count` elements read so far. */
  function ArrayLoop(c: Input, st: St, count: nat): (r: St)
    requires st.Ok()
    ensures r.Ok() && st.pos <= |c.s| ==> r.pos <= |c.s|
    ensures r.pos >= st.pos
    decreases Left(c.s, st.pos), 3
  {
    var st1 := ParseValue(c, st);
    if !st1.Ok() then st1 else ArrayTail(c, st1, count)
  }

  /** From after an element: a comma and the next element, or the end. */
  function ArrayTail(c: Input, st: St, count: nat): (r: St)
    requires st.Ok()
    ensures r.Ok() && st.pos <= |c.s| ==> r.pos <= |c.s|
    ensures r.pos > st.pos
    decreases Left(c.s, st.pos), 1
  {
    var p := SkipSpace(c.s, st.pos);
    var st1 := st.AtPos(p + 1);
    if Peek(c.s, p) == 0x2C then ArrayLoop(c, Skip(c, st1), SizeType(count + 1))
    else if Peek(c.s, p) == 0x5D then Emit(c, st1, EndArray(SizeType(count + 1)))
    else st1.Fail(ArrayMissCommaOrSquareBracket, p + 1)
  }

  function ParseObject(c: Input, st: St): (r: St)
    requires st.Ok() && Peek(c.s, st.pos) == 0x7B
    ensures r.Ok() ==> r.pos <= |c.s|
    ensures r.pos > st.pos
    decreases Left(c.s, st.pos), 1
  {
    var st1 := Emit(c, st.AtPos(st.pos + 1), StartObject);
    if !st1.Ok() then st1 else ObjectBody(c, Skip(c, st1))
  }

  function ObjectBody(c: Input, st: St): (r: St)
    requires st.Ok()
    ensures r.Ok() && st.pos <= |c.s| ==> r.pos <= |c.s|
    ensures r.pos >= st.pos
    decreases Left(c.s, st.pos), 5
  {
    if Peek(c.s, st.pos) == 0x7D then Emit(c, st.AtPos(st.pos + 1), EndObject(0)) else ObjectLoop(c, st, 0)
  }

  /** The member loop, at a name, with `count` members read so far. */
  function ObjectLoop(c: Input, st: St, count: nat): (r: St)
    requires st.Ok()
    ensures r.Ok() && st.pos <= |c.s| ==> r.pos <= |c.s|
    ensures r.pos >= st.pos
    decreases Left(c.s, st.pos), 4
  {
    if Peek(c.s, st.pos) != 0x22 then st.Fail(ObjectMissName, st.pos)
    else
      var st1 := ParseString(c, st, true);
      if !st1.Ok() then st1 else ObjectColon(c, Skip(c, st1), count)
  }

  /** From after a name. */
  function ObjectColon(c: Input, st: St, count: nat): (r: St)
    requires st.Ok()
    ensures r.Ok() && st.pos <= |c.s| ==> r.pos <= |c.s|
    ensures r.pos > st.pos
    decreases Left(c.s, st.pos), 3
  {
    var st1 := st.AtPos(st.pos + 1);
    if Peek(c.s, st.pos) != 0x3A then st1.Fail(ObjectMissColon, st.pos + 1)
    else
      var st2 := ParseValue(c, Skip(c, st1));
      if !st2.Ok() then st2 else ObjectTail(c, st2, count)
  }

  /** From after a member's value: a comma and the next name, or the end. */
  function ObjectTail(c: Input, st: St, count: nat): (r: St)
    requires st.Ok()
    ensures r.Ok() && st.pos <= |c.s| ==> r.pos <= |c.s|
    ensures r.pos > st.pos
    decreases Left(c.s, st.pos), 1
  {
    var p := SkipSpace(c.s, st.pos);
    var st1 := st.AtPos(p + 1);
    if Peek(c.s, p) == 0x2C then ObjectLoop(c, Skip(c, st1), SizeType(count + 1))
    else if Peek(c.s, p) == 0x7D then Emit(c, st1, EndObject(SizeType(count + 1)))
    else st1.Fail(ObjectMissCommaOrCurlyBracket, p + 1)
  }

  /** The start of an array: the handler, the whitespace, then the end or the loop. */
  lemma {:induction false} ArrayOpens(c: Input, st: St)
    requires st.Ok() && Peek(c.s, st.pos) == 0x5B
    ensures var st1 := Emit(c, st.AtPos(st.pos + 1), StartArray);
            var st2 := Skip(c, st1);
            && st1.pos == st.pos + 1
            && (!st1.Ok() ==> ParseArray(c, st) == st1)
            && (st1.Ok() && Peek(c.s, st2.pos) == 0x5D ==>
                  ParseArray(c, st) == Emit(c, st2.AtPos(st2.pos + 1), EndArray(0)))
            && (st1.Ok() && Peek(c.s, st2.pos) != 0x5D ==> ParseArray(c, st) == ArrayLoop(c, st2, SizeType(0)))
  {
    hide ArrayLoop, SkipSpace;
  }

  /** The start of an object: the handler, the whitespace, then the end or the loop. */
  lemma {:induction false} ObjectOpens(c: Input, st: St)
    requires st.Ok() && Peek(c.s, st.pos) == 0x7B
    ensures var st1 := Emit(c, st.AtPos(st.pos + 1), StartObject);
            var st2 := Skip(c, st1);
            && st1.pos == st.pos + 1
            && (!st1.Ok() ==> ParseObject(c, st) == st1)
            && (st1.Ok() && Peek(c.s, st2.pos) == 0x7D ==>
                  ParseObject(c, st) == Emit(c, st2.AtPos(st2.pos + 1), EndObject(0)))
            && (st1.Ok() && Peek(c.s, st2.pos) != 0x7D ==> ParseObject(c, st) == ObjectLoop(c, st2, SizeType(0)))
  {
    hide ObjectLoop, SkipSpace;
  }

  lemma {:induction false} ArrayLoopStep(c: Input, st: St, count: nat)
    requires st.Ok()
    ensures var v := ParseValue(c, st);
            var p := SkipSpace(c.s, v.pos);
            ArrayLoop(c, st, count) ==
            if !v.Ok() then v
            else if Peek(c.s, p) == 0x2C then ArrayLoop(c, v.AtPos(SkipSpace(c.s, p + 1)), SizeType(count + 1))
            else if Peek(c.s, p) == 0x5D then Emit(c, v.AtPos(p + 1), EndArray(SizeType(count + 1)))
            else v.AtPos(p + 1).Fail(ArrayMissCommaOrSquareBracket, p + 1)
  {
    hide ParseValue;
  }

  lemma {:induction false} ObjectTailStep(c: Input, st: St, count: nat)
    requires st.Ok()
    ensures var p := SkipSpace(c.s, st.pos);
            ObjectTail(c, st, count) ==
            if Peek(c.s, p) == 0x2C then ObjectLoop(c, st.AtPos(SkipSpace(c.s, p + 1)), SizeType(count + 1))
            else if Peek(c.s, p) == 0x7D then Emit(c, st.AtPos(p + 1), EndObject(SizeType(count + 1)))
            else st.AtPos(p + 1).Fail(ObjectMissCommaOrCurlyBracket, p + 1)
  {
    hide ParseValue;
  }

  /** One turn of the element loop, behind an element. */
  lemma {:induction false} ArrayTurn(c: Input, st: St, k: nat)
    requires st.Ok() && ParseValue(c, st).Ok()
    ensures var st1 := ParseValue(c, st);
            var p := SkipSpace(c.s, st1.pos);
            && (Peek(c.s, p) == 0x2C ==>
                  ArrayLoop(c, st, SizeType(k)) == ArrayLoop(c, Skip(c, st1.AtPos(p + 1)), SizeType(k + 1)))
            && (Peek(c.s, p) == 0x5D ==>
                  ArrayLoop(c, st, SizeType(k)) == Emit(c, st1.AtPos(p + 1), EndArray(SizeType(k + 1))))
            && (Peek(c.s, p) != 0x2C && Peek(c.s, p) != 0x5D ==> !ArrayLoop(c, st, SizeType(k)).Ok())
  {
    hide ParseValue, SkipSpace, Emit;
  }

  /** One turn of the member loop, behind a member. */
  lemma {:induction false} ObjectTurn(c: Input, st: St, k: nat)
    requires st.Ok()
    ensures var p := SkipSpace(c.s, st.pos);
            && (Peek(c.s, p) == 0x2C ==>
                  ObjectTail(c, st, SizeType(k)) == ObjectLoop(c, Skip(c, st.AtPos(p + 1)), SizeType(k + 1)))
            && (Peek(c.s, p) == 0x7D ==>
                  ObjectTail(c, st, SizeType(k)) == Emit(c, st.AtPos(p + 1), EndObject(SizeType(k + 1))))
            && (Peek(c.s, p) != 0x2C && Peek(c.s, p) != 0x7D ==> !ObjectTail(c, st, SizeType(k)).Ok())
  {
    hide ObjectLoop, SkipSpace, Emit;
  }

  const START: St := St(0, [], None)

  /** What follows the root value. */
  function RootEnd(c: Input, st: St): St
    requires st.Ok()
  {
    if c.flags.stopWhenDone then st
    else
      var st1 := Skip(c, st);
      if Peek(c.s, st1.pos) != 0 then st1.Fail(RootNotSingular, st1.pos) else st1
  }

  /** The recursive parse of a text. */
  function Parse(c: Input): St {
    var st := Skip(c, START);
    if Peek(c.s, st.pos) == 0 then st.Fail(DocumentEmpty, st.pos)
    else
      var st1 := ParseValue(c, st);
      if !st1.Ok() then st1 else RootEnd(c, st1)
  }
}
